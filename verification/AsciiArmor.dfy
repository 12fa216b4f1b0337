/**
 ASCII armor (sections 6.2 and 6.3 of RFC 4880): the printer that wraps uploads
 and the line parser that unwraps account tokens.
 */
module AsciiArmor {
  import opened Results
  import opened Bytes
  import opened Base64
  import opened Text
  import Crc24

  // ----- Printing ------------------------------------------------------------------

  datatype ArmorKind = Message | Signature

  function Label(kind: ArmorKind): string {
    match kind
    case Message => "PGP MESSAGE"
    case Signature => "PGP SIGNATURE"
  }

  function BeginLine(kind: ArmorKind): string {
    "-----BEGIN " + Label(kind) + "-----"
  }

  function EndLine(kind: ArmorKind): string {
    "-----END " + Label(kind) + "-----"
  }

  /** `s` in pieces of 64 characters, the last one possibly shorter. */
  function Folded(s: string): seq<string> {
    if s == [] then []
    else if |s| <= 64 then [s]
    else [s[..64]] + Folded(s[64..])
  }

  function Word(b: byte): bv8 {
    b as bv8
  }

  function Words(data: seq<byte>): (w: seq<bv8>)
    ensures |w| == |data|
  {
    if data == [] then [] else Words(data[..|data| - 1]) + [Word(data[|data| - 1])]
  }

  function CrcBytes(crc: bv32): seq<byte> {
    [((crc >> 16) & 0xFF) as int, ((crc >> 8) & 0xFF) as int, (crc & 0xFF) as int]
  }

  function CrcLine(data: seq<byte>): string {
    "=" + Encode(CrcBytes(Crc24.Remainder(Words(data))))
  }

  function ArmorLines(data: seq<byte>, kind: ArmorKind): seq<string> {
    [BeginLine(kind), ""] + Folded(Encode(data)) + [CrcLine(data), EndLine(kind)]
  }

  method Armor(data: seq<byte>, kind: ArmorKind) returns (out: string)
    ensures out == Joined(ArmorLines(data, kind))
  {
    var b64 := Encode(data);
    var crc := Crc24.Checksum(Words(data));
    var crcB64 := Encode(CrcBytes(crc));
    out := "-----BEGIN " + Label(kind) + "-----\n\n";
    out := ArmorBody(out, b64);
    out := out + ("=" + crcB64 + "\n");
    out := out + ("-----END " + Label(kind) + "-----\n");
    ArmorText(data, kind);
  }

  lemma ArmorText(data: seq<byte>, kind: ArmorKind)
    ensures Joined(ArmorLines(data, kind)) ==
      "-----BEGIN " + Label(kind) + "-----\n\n" + Joined(Folded(Encode(data))) + (CrcLine(data) + "\n")
      + ("-----END " + Label(kind) + "-----\n")
  {
    HeadText(kind);
    EndText(kind);
    FrameText(BeginLine(kind), Folded(Encode(data)), CrcLine(data), EndLine(kind));
  }

  /** The chunk loop: appends each chunk and a line feed. */
  method ArmorBody(head: string, b64: string) returns (out: string)
    ensures out == head + Joined(Folded(b64))
  {
    out := head;
    ghost var done: seq<string> := [];
    var rest := b64;
    while rest != []
      invariant Folded(b64) == done + Folded(rest)
      invariant out == head + Joined(done)
      decreases |rest|
    {
      var n := if |rest| < 64 then |rest| else 64;
      FoldedStep(rest);
      JoinedSnoc(done, rest[..n]);
      out := out + rest[..n];
      out := out + "\n";
      done := done + [rest[..n]];
      rest := rest[n..];
    }
    assert done == Folded(b64);
  }

  lemma HeadText(kind: ArmorKind)
    ensures "-----BEGIN " + Label(kind) + "-----\n\n" == BeginLine(kind) + "\n" + "\n"
  {
    assert "-----\n\n" == "-----" + "\n" + "\n";
  }

  lemma EndText(kind: ArmorKind)
    ensures "-----END " + Label(kind) + "-----\n" == EndLine(kind) + "\n"
  {
    assert "-----\n" == "-----" + "\n";
  }

  /** Lines of exactly 64 characters, the last one possibly shorter but not empty. */
  lemma {:induction false} FoldedSizes(s: string, i: nat)
    requires i < |Folded(s)|
    ensures 0 < |Folded(s)[i]| <= 64 && (i < |Folded(s)| - 1 ==> |Folded(s)[i]| == 64)
  {
    if |s| > 64 {
      assert Folded(s)[1..] == Folded(s[64..]);
      if i > 0 {
        FoldedSizes(s[64..], i - 1);
      }
    }
  }

  lemma FoldedStep(s: string)
    requires s != []
    ensures var n := if |s| < 64 then |s| else 64;
      Folded(s) == [s[..n]] + Folded(s[n..])
  {
    if |s| <= 64 {
      assert s[..|s|] == s;
    }
  }

  lemma JoinedSnoc(lines: seq<string>, line: string)
    ensures Joined(lines + [line]) == Joined(lines) + line + "\n"
  {
    JoinedConcat(lines, [line]);
    assert Joined([line]) == line + "\n" + Joined([]);
  }

  lemma FrameText(first: string, chunks: seq<string>, crc: string, last: string)
    ensures Joined([first, ""] + chunks + [crc, last])
         == first + "\n" + "\n" + Joined(chunks) + (crc + "\n") + (last + "\n")
  {
    assert [first, ""] + chunks == [first] + ([""] + chunks);
    JoinedOfFrame(first, [""] + chunks, crc, last);
    JoinedConcat([""], chunks);
    assert Joined([""]) == "" + "\n" + Joined([]);
    assert Joined([""] + chunks) == "\n" + Joined(chunks);
  }

  lemma JoinedOfFrame(first: string, middle: seq<string>, crc: string, last: string)
    ensures Joined([first] + middle + [crc, last])
         == first + "\n" + Joined(middle) + crc + "\n" + last + "\n"
  {
    JoinedConcat([first] + middle, [crc, last]);
    JoinedConcat([first], middle);
    assert [crc, last][1..] == [last] && [last][1..] == [];
    assert Joined([crc, last]) == crc + "\n" + (last + "\n");
    assert Joined([first]) == first + "\n";
  }

  /** The lines that frame a block. */
  lemma MessageFrame()
    ensures BeginLine(Message) == "-----BEGIN PGP MESSAGE-----"
    ensures EndLine(Message) == "-----END PGP MESSAGE-----"
  {
  }

  lemma SignatureFrame()
    ensures BeginLine(Signature) == "-----BEGIN PGP SIGNATURE-----"
    ensures EndLine(Signature) == "-----END PGP SIGNATURE-----"
  {
  }

  lemma {:induction false} WordsAreBytes(data: seq<byte>, i: nat)
    requires i < |data|
    ensures Words(data)[i] == data[i] as bv8
  {
    if i < |data| - 1 {
      WordsAreBytes(data[..|data| - 1], i);
    }
  }

  /** The checksum line is an equals sign and the three octets in base64. */
  lemma ChecksumLineDecodes(data: seq<byte>)
    ensures CrcLine(data) != "" && CrcLine(data)[0] == '='
    ensures Crc24.Fits(Crc24.Remainder(Words(data)))
    ensures Decode(CrcLine(data)[1..]) == Ok(CrcBytes(Crc24.Remainder(Words(data))))
  {
    Crc24.RemainderFits(Words(data));
    var octets := CrcBytes(Crc24.Remainder(Words(data)));
    DecodeOfEncode(octets);
    assert CrcLine(data)[1..] == Encode(octets);
  }

  /** The octets of a checksum, highest first. */
  lemma ChecksumIsBigEndian(crc: bv32) returns (high: bv32, middle: bv32, low: bv32)
    requires Crc24.Fits(crc)
    ensures high <= 255 && middle <= 255 && low <= 255
    ensures (high << 16) | (middle << 8) | low == crc
    ensures CrcBytes(crc) == [high as int, middle as int, low as int]
  {
    high, middle, low := (crc >> 16) & 0xFF, (crc >> 8) & 0xFF, crc & 0xFF;
    OctetsSpell(crc);
  }

  /** The checksum line of no data at all. */
  lemma EmptyChecksumLine()
    ensures CrcLine([]) == "=twTO"
  {
    EmptyChecksum();
    InitialOctets();
    InitialText();
  }

  lemma EmptyChecksum()
    ensures Crc24.Remainder(Words([])) == 0x00B7_04CE
  {
  }

  lemma InitialOctets()
    ensures CrcBytes(0x00B7_04CE) == [0xB7, 0x04, 0xCE]
  {
  }

  lemma InitialText()
    ensures Encode([0xB7, 0x04, 0xCE]) == "twTO"
  {
    assert EncodeThree(0xB7, 0x04, 0xCE) == "twTO";
    assert [0xB7, 0x04, 0xCE][3..] == [];
    assert Encode([0xB7, 0x04, 0xCE]) == "twTO" + "";
  }

  lemma OctetsSpell(crc: bv32)
    requires crc <= 0x00FF_FFFF
    ensures (crc >> 16) & 0xFF <= 255 && (crc >> 8) & 0xFF <= 255 && crc & 0xFF <= 255
    ensures (((crc >> 16) & 0xFF) << 16) | (((crc >> 8) & 0xFF) << 8) | (crc & 0xFF) == crc
  {
  }

  // ----- Parsing ---------------------------------------------------------------------

  const BEGIN := "-----BEGIN PGP"
  const END := "-----END PGP"

  function TrimmedLines(lines: seq<string>): (r: seq<string>)
    ensures |r| == |lines|
    ensures forall i :: 0 <= i < |lines| ==> r[i] == TrimEnd(lines[i])
  {
    if lines == [] then [] else [TrimEnd(lines[0])] + TrimmedLines(lines[1..])
  }

  /** The base64 text between the header's blank line and the END line, without
      the checksum line. */
  function Body(lines: seq<string>, inBody: bool, seenBlank: bool): string {
    if lines == [] then ""
    else
      var line, rest := lines[0], lines[1..];
      if StartsWith(line, BEGIN) then Body(rest, true, seenBlank)
      else if StartsWith(line, END) then ""
      else if !inBody then Body(rest, inBody, seenBlank)
      else if !seenBlank && line != "" then Body(rest, inBody, false)
      else if !seenBlank then Body(rest, inBody, true)
      else if StartsWith(line, "=") then Body(rest, inBody, seenBlank)
      else line + Body(rest, inBody, seenBlank)
  }

  function Dearmored(armored: string): Result<seq<byte>, DecodeError> {
    var trimmed := Trim(armored);
    if !Contains(trimmed, BEGIN) then Decode(trimmed)
    else Decode(Body(TrimmedLines(Lines(trimmed)), false, false))
  }

  method DearmorPgp(armored: string) returns (r: Result<seq<byte>, DecodeError>)
    ensures r == Dearmored(armored)
  {
    var trimmed := Trim(armored);
    if !Contains(trimmed, BEGIN) {
      return Decode(trimmed);
    }
    var body := CollectBody(Lines(trimmed));
    r := Decode(body);
  }

  /** With `body` collected, `rest` is what remains of the whole. */
  predicate Remains(whole: string, body: string, rest: string) {
    whole == body + rest
  }

  lemma BodyMeetsLine(lines: seq<string>, i: nat, inBody: bool, seenBlank: bool, whole: string, body: string)
    requires i < |lines| && Remains(whole, body, Body(lines[i..], inBody, seenBlank))
    ensures var line := lines[i];
      if StartsWith(line, BEGIN) then Remains(whole, body, Body(lines[i + 1..], true, seenBlank))
      else if StartsWith(line, END) then whole == body
      else if !inBody then Remains(whole, body, Body(lines[i + 1..], inBody, seenBlank))
      else if !seenBlank && line == "" then Remains(whole, body, Body(lines[i + 1..], inBody, true))
      else if !seenBlank || StartsWith(line, "=") then Remains(whole, body, Body(lines[i + 1..], inBody, seenBlank))
      else Remains(whole, body + line, Body(lines[i + 1..], inBody, seenBlank))
  {
    assert lines[i..][0] == lines[i] && lines[i..][1..] == lines[i + 1..];
    Associates(body, lines[i], Body(lines[i + 1..], inBody, seenBlank));
  }

  lemma Associates(a: string, b: string, c: string)
    ensures a + (b + c) == (a + b) + c
  {
  }

  /** The line loop: three states, and a body that grows. */
  method CollectBody(lines: seq<string>) returns (body: string)
    ensures body == Body(TrimmedLines(lines), false, false)
  {
    ghost var all := TrimmedLines(lines);
    ghost var whole := Body(all, false, false);
    body := "";
    var inBody, seenBlank := false, false;
    var i := 0;
    assert all[0..] == all;
    while i < |lines|
      invariant 0 <= i <= |lines|
      invariant Remains(whole, body, Body(all[i..], inBody, seenBlank))
    {
      var line := TrimEnd(lines[i]);
      BodyMeetsLine(all, i, inBody, seenBlank, whole, body);
      i := i + 1;
      if StartsWith(line, BEGIN) {
        inBody := true;
        continue;
      }
      if StartsWith(line, END) {
        return;
      }
      if !inBody {
        continue;
      }
      if !seenBlank {
        if line == "" {
          seenBlank := true;
        }
        continue;
      }
      if StartsWith(line, "=") {
        continue;
      }
      if line != "" {
        body := body + line;
      }
    }
  }

  /** Frames of other kinds do not begin or end a block. */
  lemma OtherFramesAreText()
    ensures !StartsWith("-----BEGIN CERTIFICATE-----", BEGIN) && !StartsWith("-----END CERTIFICATE-----", END)
  {
    assert "-----BEGIN CERTIFICATE-----"[11] == 'C' && "-----END CERTIFICATE-----"[9] == 'C';
    assert BEGIN[11] == 'P' && END[9] == 'P';
  }

  // ----- The parser on armored text ------------------------------------------------------

  lemma FrameLines(kind: ArmorKind)
    ensures StartsWith(BeginLine(kind), BEGIN)
    ensures BeginLine(kind) != "" && !IsSpace(BeginLine(kind)[0])
    ensures EndLine(kind) != "" && StartsWith(EndLine(kind), END)
  {
  }

  predicate HeaderLine(line: string) {
    line != "" && !StartsWith(line, END)
  }

  predicate BodyLine(line: string) {
    !StartsWith(line, BEGIN) && !StartsWith(line, END) && !StartsWith(line, "=")
  }

  function Flat(lines: seq<string>): string {
    if lines == [] then "" else lines[0] + Flat(lines[1..])
  }

  lemma {:induction false} BodySkipsHeaders(headers: seq<string>, rest: seq<string>)
    requires forall h :: h in headers ==> HeaderLine(h)
    ensures Body(headers + [""] + rest, true, false) == Body(rest, true, true)
  {
    var all := headers + [""] + rest;
    if headers == [] {
      assert all[0] == "" && all[1..] == rest;
    } else {
      assert all[0] == headers[0] && HeaderLine(headers[0]);
      assert (headers + [""] + rest)[1..] == headers[1..] + [""] + rest;
      BodySkipsHeaders(headers[1..], rest);
    }
  }

  lemma {:induction false} BodyCollects(lines: seq<string>, rest: seq<string>)
    requires forall l :: l in lines ==> BodyLine(l)
    ensures Body(lines + rest, true, true) == Flat(lines) + Body(rest, true, true)
  {
    if lines == [] {
      assert lines + rest == rest;
    } else {
      assert BodyLine(lines[0]);
      assert (lines + rest)[0] == lines[0] && (lines + rest)[1..] == lines[1..] + rest;
      BodyCollects(lines[1..], rest);
    }
  }

  /** The lines of an armored block with extra headers and any checksum line. */
  function Block(kind: ArmorKind, headers: seq<string>, body: seq<string>, crc: string): seq<string> {
    [BeginLine(kind)] + (headers + [""] + (body + [crc, EndLine(kind)]))
  }

  lemma BodyOfTail(crc: string, end: string, after: seq<string>)
    requires StartsWith(crc, "=") && StartsWith(end, END)
    ensures Body([crc, end] + after, true, true) == ""
  {
    assert crc[0] == '=' && BEGIN[0] == '-' && END[0] == '-' && end[0] == '-';
    assert BEGIN[5] == 'B' && END[5] == 'E' && end[5] == 'E';
    assert ([crc, end] + after)[1..] == [end] + after;
  }

  lemma {:induction false} BodyIgnoresLinesBefore(before: seq<string>, rest: seq<string>)
    requires forall l :: l in before ==> !StartsWith(l, BEGIN) && !StartsWith(l, END)
    ensures Body(before + rest, false, false) == Body(rest, false, false)
  {
    if before == [] {
      assert before + rest == rest;
    } else {
      assert before[0] in before;
      assert (before + rest)[0] == before[0] && (before + rest)[1..] == before[1..] + rest;
      BodyIgnoresLinesBefore(before[1..], rest);
    }
  }

  /** Text before the block and after it is ignored: the body ends at the first end line. */
  lemma BodyInsideText(before: seq<string>, kind: ArmorKind, headers: seq<string>, body: seq<string>, crc: string,
                       after: seq<string>)
    requires forall l :: l in before ==> !StartsWith(l, BEGIN) && !StartsWith(l, END)
    requires forall h :: h in headers ==> HeaderLine(h)
    requires forall l :: l in body ==> BodyLine(l)
    requires StartsWith(crc, "=")
    ensures Body(before + (Block(kind, headers, body, crc) + after), false, false) == Flat(body)
  {
    BodyIgnoresLinesBefore(before, Block(kind, headers, body, crc) + after);
    BodyOfBlock(kind, headers, body, crc, after);
  }

  lemma BodyOfBlock(kind: ArmorKind, headers: seq<string>, body: seq<string>, crc: string, after: seq<string>)
    requires forall h :: h in headers ==> HeaderLine(h)
    requires forall l :: l in body ==> BodyLine(l)
    requires StartsWith(crc, "=")
    ensures Body(Block(kind, headers, body, crc) + after, false, false) == Flat(body)
  {
    var tail := [crc, EndLine(kind)] + after;
    FrameLines(kind);
    assert (Block(kind, headers, body, crc) + after)[1..] == headers + [""] + (body + tail);
    BodySkipsHeaders(headers, body + tail);
    BodyCollects(body, tail);
    BodyOfTail(crc, EndLine(kind), after);
  }

  /** `raw` is `lines` as a transport may have left them: each line may have
      gained trailing white space, such as a carriage return. */
  predicate Transported(raw: seq<string>, lines: seq<string>) {
    && |raw| == |lines|
    && forall i :: 0 <= i < |raw| ==> OneLine(raw[i]) && TrimEnd(raw[i]) == lines[i]
  }

  /** The joined text is its trimmed core followed by white space. */
  lemma CoreOfTransported(raw: seq<string>, lines: seq<string>) returns (w: string)
    requires Transported(raw, lines) && |lines| >= 2
    requires lines[0] != "" && !IsSpace(lines[0][0]) && lines[|lines| - 1] != ""
    ensures
      var k := |raw| - 1;
      var core := Joined(raw[..k]) + lines[k];
      && Joined(raw) == core + w && AllSpace(w)
      && lines[0] <= core && !IsSpace(core[|core| - 1])
      && OneLine(lines[k]) && TrimEnd(lines[k]) == lines[k]
  {
    var k := |raw| - 1;
    var w' := TrimEndSplits(raw[k]);
    w := w' + "\n";
    JoinedSnoc(raw[..k], raw[k]);
    LastIsSplit(raw, k);
    var v := TrimEndSplits(raw[0]);
    assert raw[..k][0] == raw[0];
    assert lines[0] <= raw[0] <= Joined(raw[..k]);
    assert Joined(raw) == Joined(raw[..k]) + lines[k] + w;
    forall i | 0 <= i < |lines[k]| ensures lines[k][i] != '\n' {
      assert raw[k][i] == lines[k][i];
    }
  }

  lemma TrimOfTransported(raw: seq<string>, lines: seq<string>, before: string, after: string)
    requires Transported(raw, lines) && |lines| >= 2
    requires lines[0] != "" && !IsSpace(lines[0][0]) && lines[|lines| - 1] != ""
    requires AllSpace(before) && AllSpace(after)
    ensures var k := |raw| - 1;
      && Trim(before + Joined(raw) + after) == Joined(raw[..k]) + lines[k]
      && OneLine(lines[k]) && TrimEnd(lines[k]) == lines[k]
  {
    var k := |raw| - 1;
    var w := CoreOfTransported(raw, lines);
    TrimAround(lines[0], Joined(raw[..k]) + lines[k], w, before, after);
  }

  lemma TrimAround(first: string, core: string, w: string, before: string, after: string)
    requires first != "" && !IsSpace(first[0]) && first <= core && !IsSpace(core[|core| - 1])
    requires AllSpace(w) && AllSpace(before) && AllSpace(after)
    ensures Trim(before + (core + w) + after) == core
  {
    assert core[0] == first[0];
    assert before + (core + w) + after == before + core + (w + after);
    TrimOf(before, core, w + after);
  }

  lemma LastIsSplit<T>(s: seq<T>, k: nat)
    requires |s| == k + 1
    ensures s[..k] + [s[k]] == s
  {
  }

  lemma LinesOfTransported(raw: seq<string>, lines: seq<string>)
    requires Transported(raw, lines) && lines != []
    requires var last := lines[|lines| - 1]; last != "" && OneLine(last) && TrimEnd(last) == last
    ensures TrimmedLines(Lines(Joined(raw[..|raw| - 1]) + lines[|lines| - 1])) == lines
  {
    LinesOfCore(raw[..|raw| - 1], lines);
  }

  /** `raw` are all lines but the last. */
  lemma LinesOfCore(raw: seq<string>, lines: seq<string>)
    requires |lines| == |raw| + 1
    requires forall i :: 0 <= i < |raw| ==> OneLine(raw[i]) && TrimEnd(raw[i]) == lines[i]
    requires var last := lines[|raw|]; last != "" && OneLine(last) && TrimEnd(last) == last
    ensures TrimmedLines(Lines(Joined(raw) + lines[|raw|])) == lines
  {
    LinesOfJoined(raw, lines[|raw|]);
    DroppedThenTrimmed(Lines(Joined(raw) + lines[|raw|]), raw, lines);
  }

  lemma DroppedThenTrimmed(r: seq<string>, raw: seq<string>, lines: seq<string>)
    requires |r| == |lines| == |raw| + 1 && r[|raw|] == lines[|raw|] && TrimEnd(lines[|raw|]) == lines[|raw|]
    requires forall i :: 0 <= i < |raw| ==> TrimEnd(raw[i]) == lines[i]
    requires forall i :: 0 <= i < |raw| ==> r[i] == DropCarriageReturn(raw[i])
    ensures TrimmedLines(r) == lines
  {
    forall i | 0 <= i < |r| ensures TrimEnd(r[i]) == lines[i] {
      if i < |raw| {
        TrimEndDropsCarriageReturn(raw[i]);
      }
    }
    TrimmedLinesAre(r, lines);
  }

  lemma TrimmedLinesAre(r: seq<string>, lines: seq<string>)
    requires |r| == |lines| && forall i :: 0 <= i < |r| ==> TrimEnd(r[i]) == lines[i]
    ensures TrimmedLines(r) == lines
  {
  }

  /** What the parser decodes from a block: exactly the body lines, whatever the
      headers, the checksum line, and the white space around it. */
  lemma DearmorOfBlock(kind: ArmorKind, headers: seq<string>, body: seq<string>, crc: string,
                       raw: seq<string>, before: string, after: string)
    requires forall h :: h in headers ==> HeaderLine(h)
    requires forall l :: l in body ==> BodyLine(l)
    requires StartsWith(crc, "=")
    requires Transported(raw, Block(kind, headers, body, crc))
    requires AllSpace(before) && AllSpace(after)
    ensures Dearmored(before + Joined(raw) + after) == Decode(Flat(body))
  {
    var lines := Block(kind, headers, body, crc);
    FrameLines(kind);
    TrimOfTransported(raw, lines, before, after);
    LinesOfTransported(raw, lines);
    BeginOccurs(raw, lines, 0);
    BodyOfWholeBlock(kind, headers, body, crc);
  }

  /** The block may stand inside a text: lines before it and after it change nothing. */
  lemma DearmorInsideText(before: seq<string>, kind: ArmorKind, headers: seq<string>, body: seq<string>, crc: string,
                          after: seq<string>, raw: seq<string>, left: string, right: string)
    requires forall l :: l in before ==> !StartsWith(l, BEGIN) && !StartsWith(l, END)
    requires forall h :: h in headers ==> HeaderLine(h)
    requires forall l :: l in body ==> BodyLine(l)
    requires StartsWith(crc, "=")
    requires var lines := before + (Block(kind, headers, body, crc) + after);
      && Transported(raw, lines)
      && lines[0] != "" && !IsSpace(lines[0][0]) && lines[|lines| - 1] != ""
    requires AllSpace(left) && AllSpace(right)
    ensures Dearmored(left + Joined(raw) + right) == Decode(Flat(body))
  {
    var lines := before + (Block(kind, headers, body, crc) + after);
    FrameLines(kind);
    assert lines[|before|] == BeginLine(kind);
    TrimOfTransported(raw, lines, left, right);
    LinesOfTransported(raw, lines);
    BeginOccurs(raw, lines, |before|);
    BodyInsideText(before, kind, headers, body, crc, after);
  }

  /** A begin line before the last line occurs in the joined text. */
  lemma BeginOccurs(raw: seq<string>, lines: seq<string>, i: nat)
    requires Transported(raw, lines) && i < |lines| - 1 && StartsWith(lines[i], BEGIN)
    ensures Contains(Joined(raw[..|raw| - 1]) + lines[|lines| - 1], BEGIN)
  {
    var front, last := raw[..|raw| - 1], lines[|lines| - 1];
    var w := TrimEndSplits(raw[i]);
    assert BEGIN <= lines[i] <= raw[i];
    JoinedConcat(front[..i], front[i..]);
    SplitAt(front, i);
    assert front[i..][0] == raw[i];
    var head, tail := Joined(front[..i]), "\n" + Joined(front[i..][1..]) + last;
    assert Joined(front) + last == head + (raw[i] + tail);
    PartOccurs(head, raw[i], tail, BEGIN);
  }

  lemma SplitAt<T>(s: seq<T>, i: nat)
    requires i <= |s|
    ensures s[..i] + s[i..] == s
  {
  }

  lemma PartOccurs(head: string, line: string, tail: string, part: string)
    requires part <= line
    ensures Contains(head + (line + tail), part)
  {
    var s := head + (line + tail);
    assert s[|head|..] == line + tail;
    assert s[|head|..|head| + |part|] == line[..|part|];
    assert OccursAt(s, part, |head|);
  }

  lemma BodyOfWholeBlock(kind: ArmorKind, headers: seq<string>, body: seq<string>, crc: string)
    requires forall h :: h in headers ==> HeaderLine(h)
    requires forall l :: l in body ==> BodyLine(l)
    requires StartsWith(crc, "=")
    ensures Body(Block(kind, headers, body, crc), false, false) == Flat(body)
  {
    BodyOfBlock(kind, headers, body, crc, []);
    assert Block(kind, headers, body, crc) + [] == Block(kind, headers, body, crc);
  }

  // ----- Base64 text in lines ---------------------------------------------------------

  /** Alphabet characters, with padding only late in a group of four. */
  predicate Grouped(s: string) {
    forall i :: 0 <= i < |s| ==> IsAlphabet(s[i]) || (s[i] == '=' && i % 4 >= 2)
  }

  lemma {:induction false} FoldedOfGrouped(s: string)
    requires Grouped(s)
    ensures Flat(Folded(s)) == s
    ensures forall l :: l in Folded(s) ==> l != "" && BodyLine(l) && OneLine(l) && TrimEnd(l) == l
  {
    if |s| > 64 {
      GroupedIsBodyLine(s[..64]);
      FoldedOfGrouped(s[64..]);
      assert Folded(s)[1..] == Folded(s[64..]);
    } else if s != "" {
      GroupedIsBodyLine(s);
      assert Flat([s]) == s + Flat([]);
    }
  }

  lemma GroupedIsBodyLine(s: string)
    requires Grouped(s) && s != ""
    ensures BodyLine(s) && OneLine(s) && TrimEnd(s) == s
  {
    assert IsAlphabet(s[0]);
    assert BEGIN[0] == '-' && END[0] == '-';
  }

  lemma EncodedIsGrouped(data: seq<byte>)
    ensures Grouped(Encode(data))
  {
    forall i | 0 <= i < |Encode(data)|
      ensures IsAlphabet(Encode(data)[i]) || (Encode(data)[i] == '=' && i % 4 >= 2)
    {
      EncodedCharacters(data, i);
    }
  }

  // ----- De-armoring undoes armoring -----------------------------------------------------

  /** The armored text of `data` with extra header lines, any checksum line, and
      white space added around the text and at line ends, still gives `data`. */
  lemma DearmorSurvivesTransport(data: seq<byte>, kind: ArmorKind, headers: seq<string>, crc: string,
                                 raw: seq<string>, before: string, after: string)
    requires forall h :: h in headers ==> HeaderLine(h)
    requires StartsWith(crc, "=")
    requires Transported(raw, Block(kind, headers, Folded(Encode(data)), crc))
    requires AllSpace(before) && AllSpace(after)
    ensures Dearmored(before + Joined(raw) + after) == Ok(data)
  {
    EncodedIsGrouped(data);
    FoldedOfGrouped(Encode(data));
    DearmorOfBlock(kind, headers, Folded(Encode(data)), crc, raw, before, after);
    DecodeOfEncode(data);
  }

  predicate Clean(line: string) {
    OneLine(line) && TrimEnd(line) == line
  }

  lemma FrameLinesAreClean(kind: ArmorKind)
    ensures Clean(BeginLine(kind)) && Clean(EndLine(kind))
  {
  }

  lemma CrcLineIsClean(code: seq<byte>)
    ensures Clean("=" + Encode(code))
  {
    var line := "=" + Encode(code);
    EncodedIsGrouped(code);
    forall i | 0 <= i < |line| ensures line[i] == '=' || IsAlphabet(line[i]) {
      if i > 0 {
        assert line[i] == Encode(code)[i - 1];
      }
    }
  }

  lemma ArmorLinesAreClean(data: seq<byte>, kind: ArmorKind)
    ensures Transported(ArmorLines(data, kind), ArmorLines(data, kind))
  {
    EncodedIsGrouped(data);
    FoldedOfGrouped(Encode(data));
    CrcLineIsClean(CrcBytes(Crc24.Remainder(Words(data))));
    FrameLinesAreClean(kind);
    BothClean(BeginLine(kind), "");
    BothClean(CrcLine(data), EndLine(kind));
    AllClean([BeginLine(kind), ""], Folded(Encode(data)), [CrcLine(data), EndLine(kind)]);
  }

  lemma BothClean(a: string, b: string)
    requires Clean(a) && Clean(b)
    ensures forall l :: l in [a, b] ==> Clean(l)
  {
  }

  lemma AllClean(a: seq<string>, b: seq<string>, c: seq<string>)
    requires forall l :: l in a ==> Clean(l)
    requires forall l :: l in b ==> Clean(l)
    requires forall l :: l in c ==> Clean(l)
    ensures Transported(a + b + c, a + b + c)
  {
    var all := a + b + c;
    forall i | 0 <= i < |all| ensures Clean(all[i]) {
      assert all[i] in a || all[i] in b || all[i] in c;
    }
  }

  lemma DearmorOfArmor(data: seq<byte>, kind: ArmorKind)
    ensures Dearmored(Joined(ArmorLines(data, kind))) == Ok(data)
  {
    ArmorLinesAreClean(data, kind);
    ArmorIsBlock(BeginLine(kind), Folded(Encode(data)), CrcLine(data), EndLine(kind));
    DearmorSurvivesTransport(data, kind, [], CrcLine(data), ArmorLines(data, kind), "", "");
    assert "" + Joined(ArmorLines(data, kind)) + "" == Joined(ArmorLines(data, kind));
  }

  lemma ArmorIsBlock(first: string, chunks: seq<string>, crc: string, last: string)
    ensures [first, ""] + chunks + [crc, last] == [first] + ([] + [""] + (chunks + [crc, last]))
  {
  }

  /** Text without an armor header is taken as bare base64. */
  lemma DearmorOfBareBase64(data: seq<byte>, before: string, after: string)
    requires AllSpace(before) && AllSpace(after) && data != []
    ensures Dearmored(before + Encode(data) + after) == Ok(data)
  {
    var s := Encode(data);
    EncodedIsGrouped(data);
    TrimOf(before, s, after);
    forall i: nat | i <= |s| ensures !OccursAt(s, BEGIN, i) {
      assert i + |BEGIN| <= |s| ==> s[i..i + |BEGIN|][0] == s[i] != BEGIN[0];
    }
    DecodeOfEncode(data);
  }
}
