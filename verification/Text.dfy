/**
 The pieces of text handling the de-armoring parser relies on: trimming white
 space, splitting into lines, and prefix tests.
 */
module Text {

  /** The Unicode White_Space property. */
  predicate IsSpace(c: char) {
    || c == ' ' || '\t' <= c <= '\r' || c == '\U{0085}' || c == '\U{00A0}' || c == '\U{1680}'
    || '\U{2000}' <= c <= '\U{200A}' || c == '\U{2028}' || c == '\U{2029}'
    || c == '\U{202F}' || c == '\U{205F}' || c == '\U{3000}'
  }

  predicate AllSpace(s: string) {
    forall i :: 0 <= i < |s| ==> IsSpace(s[i])
  }

  function TrimStart(s: string): string {
    if s != [] && IsSpace(s[0]) then TrimStart(s[1..]) else s
  }

  function TrimEnd(s: string): string {
    if s != [] && IsSpace(s[|s| - 1]) then TrimEnd(s[..|s| - 1]) else s
  }

  function Trim(s: string): string {
    TrimEnd(TrimStart(s))
  }

  predicate StartsWith(s: string, prefix: string) {
    prefix <= s
  }

  predicate OccursAt(s: string, part: string, i: nat) {
    i + |part| <= |s| && s[i..i + |part|] == part
  }

  predicate Contains(s: string, part: string) {
    exists i: nat | i <= |s| :: OccursAt(s, part, i)
  }

  /** The index of the first line feed, or the length of the text. */
  function LineEnd(s: string): (n: nat)
    ensures n <= |s|
    ensures forall i :: 0 <= i < n ==> s[i] != '\n'
    ensures n < |s| ==> s[n] == '\n'
  {
    if s == [] || s[0] == '\n' then 0 else 1 + LineEnd(s[1..])
  }

  function DropCarriageReturn(s: string): string {
    if s != [] && s[|s| - 1] == '\r' then s[..|s| - 1] else s
  }

  /** Lines end with a line feed, perhaps after a carriage return; the last one
      need not. */
  function Lines(s: string): seq<string> {
    if s == [] then []
    else
      var n := LineEnd(s);
      if n == |s| then [s] else [DropCarriageReturn(s[..n])] + Lines(s[n + 1..])
  }

  /** Each line followed by a line feed. */
  function Joined(lines: seq<string>): string {
    if lines == [] then "" else lines[0] + "\n" + Joined(lines[1..])
  }

  // ----- Trimming ----------------------------------------------------------------

  lemma {:induction false} TrimStartOf(w: string, s: string)
    requires AllSpace(w) && (s == [] || !IsSpace(s[0]))
    ensures TrimStart(w + s) == s
  {
    if w == [] {
      assert w + s == s;
    } else {
      assert (w + s)[1..] == w[1..] + s;
      TrimStartOf(w[1..], s);
    }
  }

  lemma {:induction false} TrimEndOf(s: string, w: string)
    requires AllSpace(w) && (s == [] || !IsSpace(s[|s| - 1]))
    ensures TrimEnd(s + w) == s
  {
    if w == [] {
      assert s + w == s;
    } else {
      assert (s + w)[..|s + w| - 1] == s + w[..|w| - 1];
      TrimEndOf(s, w[..|w| - 1]);
    }
  }

  lemma TrimOf(v: string, s: string, w: string)
    requires AllSpace(v) && AllSpace(w)
    requires s != [] && !IsSpace(s[0]) && !IsSpace(s[|s| - 1])
    ensures Trim(v + s + w) == s
  {
    assert v + s + w == v + (s + w);
    assert (s + w)[0] == s[0];
    TrimStartOf(v, s + w);
    TrimEndOf(s, w);
  }

  /** A text is its trimmed part followed by white space. */
  lemma {:induction false} TrimEndSplits(s: string) returns (w: string)
    ensures s == TrimEnd(s) + w && AllSpace(w)
    ensures TrimEnd(s) == [] || !IsSpace(TrimEnd(s)[|TrimEnd(s)| - 1])
  {
    if s != [] && IsSpace(s[|s| - 1]) {
      var k := |s| - 1;
      var w' := TrimEndSplits(s[..k]);
      w := w' + [s[k]];
      assert s == s[..k] + [s[k]];
    } else {
      w := "";
    }
  }

  lemma TrimEndDropsCarriageReturn(s: string)
    ensures TrimEnd(DropCarriageReturn(s)) == TrimEnd(s)
  {
  }

  // ----- Lines -------------------------------------------------------------------

  predicate OneLine(s: string) {
    forall i :: 0 <= i < |s| ==> s[i] != '\n'
  }

  lemma {:induction false} LineEndOf(s: string, rest: string)
    requires OneLine(s)
    ensures LineEnd(s) == |s|
    ensures LineEnd(s + "\n" + rest) == |s|
  {
    if s != [] {
      LineEndOf(s[1..], rest);
      assert (s + "\n" + rest)[1..] == s[1..] + "\n" + rest;
    }
  }

  /** A line may end with a line feed or with a carriage return and a line feed. */
  lemma LinesEndEitherWay(line: string, rest: string)
    requires OneLine(line) && (line != "" ==> line[|line| - 1] != '\r')
    ensures Lines(line + "\n" + rest) == [line] + Lines(rest)
    ensures Lines(line + "\r" + "\n" + rest) == [line] + Lines(rest)
  {
    LinesOfFirst(line, rest);
    LinesOfFirst(line + "\r", rest);
    assert (line + "\r")[..|line|] == line;
  }

  lemma LinesOfFirst(line: string, rest: string)
    requires OneLine(line)
    ensures Lines(line + "\n" + rest) == [DropCarriageReturn(line)] + Lines(rest)
  {
    var s := line + "\n" + rest;
    LineEndOf(line, rest);
    assert s[..|line|] == line && s[|line| + 1..] == rest;
  }

  /** Splitting undoes joining, up to the carriage returns it drops. */
  lemma {:induction false} LinesOfJoined(lines: seq<string>, last: string)
    requires forall i :: 0 <= i < |lines| ==> OneLine(lines[i])
    requires OneLine(last) && last != []
    ensures
      var r := Lines(Joined(lines) + last);
      && |r| == |lines| + 1 && r[|lines|] == last
      && forall i :: 0 <= i < |lines| ==> r[i] == DropCarriageReturn(lines[i])
  {
    if lines == [] {
      LineEndOf(last, "");
      assert Joined(lines) + last == last;
    } else {
      var rest := Joined(lines[1..]) + last;
      assert Joined(lines) + last == lines[0] + "\n" + rest;
      LinesOfFirst(lines[0], rest);
      LinesOfJoined(lines[1..], last);
    }
  }

  lemma {:induction false} JoinedConcat(a: seq<string>, b: seq<string>)
    ensures Joined(a + b) == Joined(a) + Joined(b)
  {
    if a == [] {
      assert a + b == b;
    } else {
      assert (a + b)[1..] == a[1..] + b;
      JoinedConcat(a[1..], b);
    }
  }
}
