/**
 Base64 with the standard alphabet and canonical padding (section 4 of
 RFC 4648). The decoder is strict: foreign characters, missing or misplaced
 padding and non-zero trailing bits are errors.
 */
module Base64 {
  import opened Results
  import opened Bytes

  datatype DecodeError = InvalidBase64

  predicate IsAlphabet(c: char) {
    'A' <= c <= 'Z' || 'a' <= c <= 'z' || '0' <= c <= '9' || c == '+' || c == '/'
  }

  function SextetChar(i: int): (c: char)
    requires 0 <= i < 64
    ensures IsAlphabet(c) && CharSextet(c) == i
  {
    if i < 26 then 'A' + i as char
    else if i < 52 then 'a' + (i - 26) as char
    else if i < 62 then '0' + (i - 52) as char
    else if i == 62 then '+' else '/'
  }

  function CharSextet(c: char): (i: int)
    requires IsAlphabet(c)
    ensures 0 <= i < 64
  {
    if 'A' <= c <= 'Z' then c as int - 'A' as int
    else if 'a' <= c <= 'z' then c as int - 'a' as int + 26
    else if '0' <= c <= '9' then c as int - '0' as int + 52
    else if c == '+' then 62 else 63
  }

  lemma SextetCharOfChar(c: char)
    requires IsAlphabet(c)
    ensures SextetChar(CharSextet(c)) == c
  {
  }

  // ----- Encoding ----------------------------------------------------------------

  function Encode(data: seq<byte>): (s: string)
    ensures |s| == (|data| + 2) / 3 * 4
  {
    if |data| == 0 then ""
    else if |data| == 1 then EncodeOne(data[0])
    else if |data| == 2 then EncodeTwo(data[0], data[1])
    else
      assert (|data| + 2) / 3 == (|data| - 1) / 3 + 1;
      EncodeThree(data[0], data[1], data[2]) + Encode(data[3..])
  }

  function EncodeOne(a: byte): (s: string)
    ensures |s| == 4 && s[3] == '='
  {
    var n: int := a;
    [SextetChar(n / 4), SextetChar(n % 4 * 16), '=', '=']
  }

  function EncodeTwo(a: byte, b: byte): (s: string)
    ensures |s| == 4 && s[3] == '='
  {
    var n := a * 256 + b;
    [SextetChar(n / 1024), SextetChar(n / 16 % 64), SextetChar(n % 16 * 4), '=']
  }

  function EncodeThree(a: byte, b: byte, c: byte): (s: string)
    ensures |s| == 4 && forall i :: 0 <= i < 4 ==> IsAlphabet(s[i])
  {
    var n := a * 65536 + b * 256 + c;
    [SextetChar(n / 262144), SextetChar(n / 4096 % 64), SextetChar(n / 64 % 64), SextetChar(n % 64)]
  }

  // ----- Decoding ----------------------------------------------------------------

  function Decode(s: string): Result<seq<byte>, DecodeError> {
    if |s| == 0 then Ok([])
    else if |s| < 4 then Err(InvalidBase64)
    else if |s| == 4 && s[3] == '=' then DecodePadded(s)
    else if !(forall i :: 0 <= i < 4 ==> IsAlphabet(s[i])) then Err(InvalidBase64)
    else
      match Decode(s[4..])
      case Err(e) => Err(e)
      case Ok(rest) => Ok(DecodeThree(s[..4]) + rest)
  }

  function DecodeThree(q: string): (b: seq<byte>)
    requires |q| == 4 && forall i :: 0 <= i < 4 ==> IsAlphabet(q[i])
    ensures |b| == 3
  {
    var n := CharSextet(q[0]) * 262144 + CharSextet(q[1]) * 4096 + CharSextet(q[2]) * 64 + CharSextet(q[3]);
    [n / 65536, n / 256 % 256, n % 256]
  }

  function DecodePadded(q: string): Result<seq<byte>, DecodeError>
    requires |q| == 4 && q[3] == '='
  {
    if !IsAlphabet(q[0]) || !IsAlphabet(q[1]) then Err(InvalidBase64)
    else if q[2] == '=' then
      var n := CharSextet(q[0]) * 64 + CharSextet(q[1]);
      if n % 16 != 0 then Err(InvalidBase64) else Ok([n / 16])
    else if !IsAlphabet(q[2]) then Err(InvalidBase64)
    else
      var n := CharSextet(q[0]) * 4096 + CharSextet(q[1]) * 64 + CharSextet(q[2]);
      if n % 4 != 0 then Err(InvalidBase64) else Ok([n / 1024, n / 4 % 256])
  }

  // ----- The two are inverse -------------------------------------------------------

  lemma ThreeBytesSplit(a: int, b: int, c: int)
    requires 0 <= a < 256 && 0 <= b < 256 && 0 <= c < 256
    ensures
      var n := a * 65536 + b * 256 + c;
      && n / 262144 < 64
      && n / 262144 * 262144 + n / 4096 % 64 * 4096 + n / 64 % 64 * 64 + n % 64 == n
      && n / 65536 == a && n / 256 % 256 == b && n % 256 == c
  {
    var n := a * 65536 + b * 256 + c;
    TopByte(a, b * 256 + c);
    MiddleByte(a, b, c);
    SixBitDigits(n);
  }

  lemma TopByte(a: nat, rest: nat)
    requires a < 256 && rest < 65536
    ensures (a * 65536 + rest) / 65536 == a && (a * 65536 + rest) / 262144 < 64
  {
  }

  lemma MiddleByte(a: nat, b: nat, c: nat)
    requires b < 256 && c < 256
    ensures var n := a * 65536 + b * 256 + c; n / 256 % 256 == b && n % 256 == c
  {
    assert (a * 65536 + b * 256 + c) / 256 == a * 256 + b;
  }

  lemma SixBitDigits(n: nat)
    ensures n / 262144 * 262144 + n / 4096 % 64 * 4096 + n / 64 % 64 * 64 + n % 64 == n
  {
    assert n / 4096 == n / 64 / 64 && n / 262144 == n / 64 / 64 / 64;
  }

  lemma ThreeRoundTrip(a: byte, b: byte, c: byte)
    ensures DecodeThree(EncodeThree(a, b, c)) == [a, b, c]
  {
    ThreeBytesSplit(a, b, c);
  }

  lemma OneRoundTrip(a: byte)
    ensures DecodePadded(EncodeOne(a)) == Ok([a])
  {
    var n: int := a;
    assert n / 4 * 64 + n % 4 * 16 == n * 16;
  }

  lemma TwoBytesSplit(a: int, b: int)
    requires 0 <= a < 256 && 0 <= b < 256
    ensures
      var m := a * 256 + b;
      && m / 1024 < 64
      && m / 1024 * 4096 + m / 16 % 64 * 64 + m % 16 * 4 == m * 4
      && m * 4 % 4 == 0 && m * 4 / 1024 == a && m * 4 / 4 % 256 == b
  {
    var m := a * 256 + b;
    SixteenBits(m);
    HighByte(a, b);
    LowByte(a, b);
    assert m * 4 / 4 == m;
  }

  lemma HighByte(a: nat, b: nat)
    requires a < 256 && b < 256
    ensures var m := a * 256 + b; m / 1024 < 64 && m * 4 / 1024 == a
  {
    assert (a * 256 + b) * 4 == 1024 * a + 4 * b;
  }

  lemma LowByte(a: nat, b: nat)
    requires b < 256
    ensures (a * 256 + b) % 256 == b
  {
  }

  lemma SixteenBits(m: nat)
    ensures m == m / 1024 * 1024 + m / 16 % 64 * 16 + m % 16
  {
    assert m / 1024 == m / 16 / 64;
  }

  lemma TwoRoundTrip(a: byte, b: byte)
    ensures DecodePadded(EncodeTwo(a, b)) == Ok([a, b])
  {
    TwoBytesSplit(a, b);
    var q := EncodeTwo(a, b);
    var m := a * 256 + b;
    assert CharSextet(q[0]) * 4096 + CharSextet(q[1]) * 64 + CharSextet(q[2]) == m * 4;
  }

  lemma DecodeOfConcat(q: string, s: string)
    requires |q| == 4 && forall i :: 0 <= i < 4 ==> IsAlphabet(q[i])
    requires Decode(s).Ok?
    ensures Decode(q + s) == Ok(DecodeThree(q) + Decode(s).value)
  {
    assert (q + s)[..4] == q && (q + s)[4..] == s;
    forall i | 0 <= i < 4 ensures IsAlphabet((q + s)[i]) {
      assert (q + s)[i] == q[i];
    }
  }

  /** Decoding gives back exactly the bytes that were encoded. */
  lemma {:induction false} DecodeOfEncode(data: seq<byte>)
    ensures Decode(Encode(data)) == Ok(data)
  {
    if |data| <= 2 {
      DecodeOfShort(data);
    } else {
      DecodeOfEncode(data[3..]);
      DecodeOfLong(data);
    }
  }

  lemma DecodeOfShort(data: seq<byte>)
    requires |data| <= 2
    ensures Decode(Encode(data)) == Ok(data)
  {
    ShortParts(data);
    if |data| == 1 {
      OneRoundTrip(data[0]);
    } else if |data| == 2 {
      TwoRoundTrip(data[0], data[1]);
    }
  }

  lemma ShortParts(data: seq<byte>)
    ensures |data| == 1 ==> data == [data[0]]
    ensures |data| == 2 ==> data == [data[0], data[1]]
    ensures |data| > 2 ==> data == [data[0], data[1], data[2]] + data[3..]
  {
  }

  lemma DecodeOfLong(data: seq<byte>)
    requires |data| > 2 && Decode(Encode(data[3..])) == Ok(data[3..])
    ensures Decode(Encode(data)) == Ok(data)
  {
    ShortParts(data);
    ThreeRoundTrip(data[0], data[1], data[2]);
    DecodeOfConcat(EncodeThree(data[0], data[1], data[2]), Encode(data[3..]));
  }

  lemma ThreeDigits(n: nat)
    ensures n == n / 65536 * 65536 + n / 256 % 256 * 256 + n % 256
  {
    assert n / 256 / 256 == n / 65536;
  }

  lemma FourDigits(x: nat, y: nat, z: nat, w: nat)
    requires x < 64 && y < 64 && z < 64 && w < 64
    ensures
      var n := x * 262144 + y * 4096 + z * 64 + w;
      n / 262144 == x && n / 4096 % 64 == y && n / 64 % 64 == z && n % 64 == w
  {
    var n := x * 262144 + y * 4096 + z * 64 + w;
    assert n / 64 == x * 4096 + y * 64 + z;
    assert n / 4096 == x * 64 + y;
  }

  lemma ThreeIsCanonical(q: string)
    requires |q| == 4 && forall i :: 0 <= i < 4 ==> IsAlphabet(q[i])
    ensures var b := DecodeThree(q); EncodeThree(b[0], b[1], b[2]) == q
  {
    var x, y, z, w := CharSextet(q[0]), CharSextet(q[1]), CharSextet(q[2]), CharSextet(q[3]);
    var n := x * 262144 + y * 4096 + z * 64 + w;
    ThreeDigits(n);
    FourDigits(x, y, z, w);
    var b := DecodeThree(q);
    var hi: int, mid: int, lo: int := b[0], b[1], b[2];
    assert hi * 65536 + mid * 256 + lo == n;
    SextetsOf(hi, mid, lo, n);
    SextetCharOfChar(q[0]);
    SextetCharOfChar(q[1]);
    SextetCharOfChar(q[2]);
    SextetCharOfChar(q[3]);
    assert q == [q[0], q[1], q[2], q[3]];
  }

  lemma FourSextets(n: nat)
    requires n < 16777216
    ensures n / 262144 < 64
  {
  }

  lemma SextetsOf(a: int, b: int, c: int, n: nat)
    requires 0 <= a < 256 && 0 <= b < 256 && 0 <= c < 256
    requires n == a * 65536 + b * 256 + c
    ensures n < 16777216 && n / 262144 < 64
    ensures EncodeThree(a, b, c) ==
      [SextetChar(n / 262144), SextetChar(n / 4096 % 64), SextetChar(n / 64 % 64), SextetChar(n % 64)]
  {
    FourSextets(n);
  }

  lemma TwoSextetsSplit(x: int, y: int)
    requires 0 <= x < 64 && 0 <= y < 64 && (x * 64 + y) % 16 == 0
    ensures var n := (x * 64 + y) / 16; n / 4 == x && n % 4 * 16 == y
  {
  }

  lemma ThreeSextetsSplit(x: int, y: int, z: int)
    requires 0 <= x < 64 && 0 <= y < 64 && 0 <= z < 64 && (x * 4096 + y * 64 + z) % 4 == 0
    ensures
      var n := x * 4096 + y * 64 + z;
      var m := n / 1024 * 256 + n / 4 % 256;
      n / 1024 < 256 && m / 1024 == x && m / 16 % 64 == y && m % 16 * 4 == z
  {
    var n := x * 4096 + y * 64 + z;
    var m := x * 1024 + y * 16 + z / 4;
    LastTwoBits(x, y, z);
    BytesOfQuarter(n, m);
    DigitsOfQuarter(x, y, z / 4);
  }

  lemma LastTwoBits(x: nat, y: nat, z: nat)
    requires (x * 4096 + y * 64 + z) % 4 == 0
    ensures z / 4 * 4 == z
  {
    assert (x * 1024 + y * 16) * 4 + z == x * 4096 + y * 64 + z;
  }

  lemma BytesOfQuarter(n: nat, m: nat)
    requires n == m * 4 && m < 65536
    ensures n / 1024 < 256 && n / 1024 * 256 + n / 4 % 256 == m
  {
    assert n / 4 == m && n / 1024 == m / 256;
  }

  lemma DigitsOfQuarter(x: nat, y: nat, w: nat)
    requires x < 64 && y < 64 && w < 16
    ensures var m := x * 1024 + y * 16 + w; m / 1024 == x && m / 16 % 64 == y && m % 16 == w
  {
    assert (x * 1024 + y * 16 + w) / 16 == x * 64 + y;
  }

  lemma TailIsCanonical(q: string)
    requires |q| == 4 && q[3] == '=' && DecodePadded(q).Ok?
    ensures Encode(DecodePadded(q).value) == q
  {
    if q[2] == '=' {
      ShortTailIsCanonical(q);
    } else {
      LongTailIsCanonical(q);
    }
  }

  lemma ShortTailIsCanonical(q: string)
    requires |q| == 4 && q[3] == '=' && q[2] == '=' && DecodePadded(q).Ok?
    ensures Encode(DecodePadded(q).value) == q
  {
    SextetCharOfChar(q[0]);
    SextetCharOfChar(q[1]);
    TwoSextetsSplit(CharSextet(q[0]), CharSextet(q[1]));
  }

  lemma LongTailIsCanonical(q: string)
    requires |q| == 4 && q[3] == '=' && q[2] != '=' && DecodePadded(q).Ok?
    ensures Encode(DecodePadded(q).value) == q
  {
    SextetCharOfChar(q[0]);
    SextetCharOfChar(q[1]);
    SextetCharOfChar(q[2]);
    ThreeSextetsSplit(CharSextet(q[0]), CharSextet(q[1]), CharSextet(q[2]));
  }

  /** Every text the decoder accepts is the one encoding of its bytes. */
  lemma {:induction false} EncodeOfDecode(s: string)
    requires Decode(s).Ok?
    ensures Encode(Decode(s).value) == s
  {
    if |s| == 0 {
    } else if |s| == 4 && s[3] == '=' {
      TailIsCanonical(s);
    } else {
      ThreeIsCanonical(s[..4]);
      EncodeOfDecode(s[4..]);
      var b, rest := DecodeThree(s[..4]), Decode(s[4..]).value;
      assert (b + rest)[3..] == rest;
      assert s == s[..4] + s[4..];
    }
  }

  /** Where the padding can be: only in the last two places of a group of four. */
  lemma {:induction false} EncodedCharacters(data: seq<byte>, i: nat)
    requires i < (|data| + 2) / 3 * 4
    ensures IsAlphabet(Encode(data)[i]) || (Encode(data)[i] == '=' && i % 4 >= 2)
  {
    if |data| >= 3 {
      CharactersAfter(EncodeThree(data[0], data[1], data[2]), Encode(data[3..]), |data|, i);
      if i >= 4 {
        EncodedCharacters(data[3..], i - 4);
      }
    } else {
      PaddedCharacters(data, i);
    }
  }

  lemma CharactersAfter(q: string, rest: string, n: nat, i: nat)
    requires |q| == 4 && n >= 3 && |rest| == (n - 1) / 3 * 4 && i < (n + 2) / 3 * 4
    ensures i < |q + rest|
    ensures if i < 4 then (q + rest)[i] == q[i]
            else i - 4 < |rest| && (q + rest)[i] == rest[i - 4] && (i - 4) % 4 == i % 4
  {
    assert (n + 2) / 3 == (n - 1) / 3 + 1;
  }

  lemma PaddedCharacters(data: seq<byte>, i: nat)
    requires 1 <= |data| <= 2 && i < 4
    ensures var q := if |data| == 1 then EncodeOne(data[0]) else EncodeTwo(data[0], data[1]);
      IsAlphabet(q[i]) || (q[i] == '=' && i >= 2)
  {
    assert i == 0 || i == 1 || i == 2 || i == 3;
  }

  // ----- The encoding of the standard ---------------------------------------------------

  /** `n` characters from `first` on. */
  function From(first: char, n: nat): string
    requires first as int + n <= 128
  {
    seq(n, i requires 0 <= i < n => first + i as char)
  }

  /** Table 1 of RFC 4648. */
  lemma AlphabetIsStandard(i: nat)
    requires i < 64
    ensures var alphabet := From('A', 26) + From('a', 26) + From('0', 10) + "+/";
      |alphabet| == 64 && SextetChar(i) == alphabet[i] && CharSextet(alphabet[i]) == i
  {
  }

  /** The characters of one group, with their sextets highest bits first, spell the bytes;
      after one or two bytes come zero bits and padding. */
  predicate GroupSpells(q: string, bytes: seq<byte>)
    requires |q| == 4
  {
    var n: int := if |bytes| > 0 then bytes[0] else 0;
    var m: int := if |bytes| > 1 then n * 256 + bytes[1] else 0;
    && IsAlphabet(q[0]) && IsAlphabet(q[1])
    && var high := CharSextet(q[0]) * 64 + CharSextet(q[1]);
       if |bytes| == 1 then q[2] == q[3] == '=' && high == n * 16
       else if |bytes| == 2 then IsAlphabet(q[2]) && q[3] == '=' && high * 64 + CharSextet(q[2]) == m * 4
       else if |bytes| == 3 then
         && IsAlphabet(q[2]) && IsAlphabet(q[3])
         && high * 4096 + CharSextet(q[2]) * 64 + CharSextet(q[3]) == m * 256 + bytes[2]
       else false
  }

  lemma OneByteSpelled(a: byte)
    ensures GroupSpells(EncodeOne(a), [a])
  {
    var n: int := a;
    assert n / 4 * 64 + n % 4 * 16 == n * 16;
  }

  lemma TwoBytesSpelled(a: byte, b: byte)
    ensures GroupSpells(EncodeTwo(a, b), [a, b])
  {
    TwoBytesSplit(a, b);
  }

  lemma ThreeBytesSpelled(a: byte, b: byte, c: byte)
    ensures GroupSpells(EncodeThree(a, b, c), [a, b, c])
  {
    ThreeBytesSplit(a, b, c);
  }

  /** Group `g` of the text spells the bytes from `3 * g` on. */
  lemma {:induction false} EncodedGroups(data: seq<byte>, g: nat)
    requires 3 * g < |data|
    ensures |Encode(data)| >= 4 * g + 4
    ensures GroupSpells(Encode(data)[4 * g..4 * g + 4], data[3 * g..if 3 * g + 3 < |data| then 3 * g + 3 else |data|])
    decreases g
  {
    if g > 0 {
      EncodedGroups(data[3..], g - 1);
      GroupMoves(EncodeThree(data[0], data[1], data[2]), Encode(data[3..]), data, g);
    } else {
      FirstGroup(data);
    }
  }

  lemma FirstGroup(data: seq<byte>)
    requires data != []
    ensures |Encode(data)| >= 4
    ensures GroupSpells(Encode(data)[0..4], data[0..if 3 < |data| then 3 else |data|])
  {
    if |data| >= 3 {
      ThreeBytesSpelled(data[0], data[1], data[2]);
      assert Encode(data)[..4] == EncodeThree(data[0], data[1], data[2]);
      assert data[..3] == [data[0], data[1], data[2]];
    } else if |data| == 2 {
      TwoBytesSpelled(data[0], data[1]);
      assert Encode(data)[..4] == Encode(data) && data[..2] == [data[0], data[1]];
    } else {
      OneByteSpelled(data[0]);
      assert Encode(data)[..4] == Encode(data) && data[..1] == [data[0]];
    }
  }

  lemma GroupMoves(q: string, rest: string, data: seq<byte>, g: nat)
    requires g > 0 && |q| == 4 && |rest| >= 4 * g && 3 * g < |data|
    ensures (q + rest)[4 * g..4 * g + 4] == rest[4 * (g - 1)..4 * (g - 1) + 4]
    ensures var end := if 3 * g + 3 < |data| then 3 * g + 3 else |data|;
      data[3 * g..end] == data[3..][3 * (g - 1)..end - 3]
  {
    assert (q + rest)[4..] == rest;
    SliceOfRest(q + rest, 4, 4 * (g - 1), 4 * (g - 1) + 4);
    SliceOfRest(data, 3, 3 * (g - 1), (if 3 * g + 3 < |data| then 3 * g + 3 else |data|) - 3);
  }

  lemma SliceOfRest<T>(s: seq<T>, k: nat, a: nat, b: nat)
    requires a <= b && k + b <= |s|
    ensures s[k..][a..b] == s[k + a..k + b]
  {
  }
}
