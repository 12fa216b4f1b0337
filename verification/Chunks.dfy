/**
 Cutting a byte sequence into blocks of one size, the last one possibly shorter.
 */
module Chunks {
  import opened Bytes

  function Min(a: nat, b: nat): nat {
    if a < b then a else b
  }

  function Join(parts: seq<seq<byte>>): seq<byte> {
    if parts == [] then [] else parts[0] + Join(parts[1..])
  }

  function Cut(data: seq<byte>, size: nat): seq<seq<byte>>
    requires size > 0
    decreases |data|
  {
    if data == [] then []
    else
      var n := Min(size, |data|);
      [data[..n]] + Cut(data[n..], size)
  }

  lemma Associates(a: seq<byte>, b: seq<byte>, c: seq<byte>)
    ensures a + (b + c) == (a + b) + c
  {
  }

  lemma {:induction false} JoinAppend(a: seq<seq<byte>>, b: seq<seq<byte>>)
    ensures Join(a + b) == Join(a) + Join(b)
  {
    if a == [] {
      assert a + b == b;
    } else {
      JoinAppend(a[1..], b);
      assert (a + b)[1..] == a[1..] + b && (a + b)[0] == a[0];
      assert Join(a + b) == a[0] + Join(a[1..] + b);
      Associates(a[0], Join(a[1..]), Join(b));
    }
  }

  lemma JoinOne(part: seq<byte>)
    ensures Join([part]) == part
  {
    assert Join([part][1..]) == [];
  }

  lemma {:induction false} JoinOfCut(data: seq<byte>, size: nat)
    requires size > 0
    ensures Join(Cut(data, size)) == data
    decreases |data|
  {
    if data != [] {
      var n := Min(size, |data|);
      JoinOfCut(data[n..], size);
      assert Cut(data, size)[1..] == Cut(data[n..], size);
    }
  }

  /** No block is empty, and all but the last are full. */
  lemma {:induction false} CutSizes(data: seq<byte>, size: nat, i: nat)
    requires size > 0 && i < |Cut(data, size)|
    ensures 0 < |Cut(data, size)[i]| <= size
    ensures i < |Cut(data, size)| - 1 ==> |Cut(data, size)[i]| == size
    decreases |data|
  {
    if data != [] {
      var n := Min(size, |data|);
      if i > 0 {
        CutSizes(data[n..], size, i - 1);
      } else if |Cut(data, size)| > 1 {
        assert data[n..] != [];
      }
    }
  }

  lemma {:induction false} CutCountBounds(data: seq<byte>, size: nat)
    requires size > 0
    ensures var n := |Cut(data, size)|;
      |data| <= n * size < |data| + size
    decreases |data|
  {
    if data != [] {
      var n := Min(size, |data|);
      CutCountBounds(data[n..], size);
      var k := |Cut(data[n..], size)|;
      assert (k + 1) * size == k * size + size;
    }
  }

  lemma DivisionIsUnique(n: nat, total: nat, size: nat)
    requires size > 0 && total <= n * size < total + size
    ensures n == (total + size - 1) / size
  {
    var q := (total + size - 1) / size;
    assert q * size <= total + size - 1 < q * size + size;
    LessTimes(n, q, size);
    LessTimes(q, n, size);
  }

  lemma LessTimes(a: nat, b: nat, size: nat)
    ensures a < b ==> a * size + size <= b * size
  {
    if a < b {
      assert b * size == (a + 1) * size + (b - a - 1) * size;
    }
  }

  /** The number of blocks is the total divided by the block size, rounded up. */
  lemma CutCount(data: seq<byte>, size: nat)
    requires size > 0
    ensures |Cut(data, size)| == (|data| + size - 1) / size
  {
    CutCountBounds(data, size);
    DivisionIsUnique(|Cut(data, size)|, |data|, size);
  }

  /** Any blocks of these sizes that join to `data` are the blocks of the cut. */
  lemma {:induction false} CutIsTheOnlyOne(parts: seq<seq<byte>>, data: seq<byte>, size: nat)
    requires size > 0 && Join(parts) == data
    requires forall i :: 0 <= i < |parts| ==> 0 < |parts[i]| <= size && (i < |parts| - 1 ==> |parts[i]| == size)
    ensures parts == Cut(data, size)
  {
    if parts != [] {
      var n := |parts[0]|;
      assert data[..n] == parts[0] && data[n..] == Join(parts[1..]);
      if |parts| == 1 {
        assert parts[1..] == [];
      }
      CutIsTheOnlyOne(parts[1..], data[n..], size);
      assert n == Min(size, |data|);
    }
  }
}
