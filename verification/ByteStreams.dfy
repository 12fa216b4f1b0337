/**
 A source that delivers its bytes in pieces of any size, and a sink that may break. Each
 counts the calls of it that failed, so that an error can be traced to its cause.
 */
module ByteStreams {
  import opened Bytes
  import opened Results

  datatype StreamError = ReadFailed

  /** The unread bytes of an input stream. */
  class ByteStream {
    var rest: seq<byte>
    ghost var failures: nat

    constructor (data: seq<byte>)
      ensures rest == data && failures == 0
    {
      rest := data;
      failures := 0;
    }

    /** Read into `buf` from `lo` on: any number of bytes, none only at the end or when
        none are asked for. A failed read may have lost bytes. */
    method Read(buf: array<byte>, lo: nat, count: nat) returns (r: Result<nat, StreamError>)
      requires lo + count <= buf.Length
      modifies this, buf
      ensures failures == old(failures) + (if r.Err? then 1 else 0)
      ensures r.Ok? ==>
        && r.value <= count && r.value <= |old(rest)|
        && (r.value == 0 <==> count == 0 || old(rest) == [])
        && rest == old(rest)[r.value..]
        && buf[..] == old(buf[..lo]) + old(rest)[..r.value] + old(buf[lo..])[r.value..]
    {
      if * {
        rest := *;
        failures := failures + 1;
        return Err(ReadFailed);
      }
      if count == 0 || rest == [] {
        return Ok(0);
      }
      var most := if count < |rest| then count else |rest|;
      var n: nat :| 0 < n <= most;
      forall i | 0 <= i < n {
        buf[lo + i] := rest[i];
      }
      rest := rest[n..];
      r := Ok(n);
    }
  }

  /** The bytes written to an output stream. */
  class ByteSink {
    var written: seq<byte>
    ghost var failures: nat

    constructor ()
      ensures written == [] && failures == 0
    {
      written := [];
      failures := 0;
    }

    /** A failed write may have taken some of the bytes. */
    method WriteAll(data: seq<byte>) returns (ok: bool)
      modifies this
      ensures old(written) <= written <= old(written) + data
      ensures ok ==> written == old(written) + data
      ensures failures == old(failures) + (if ok then 0 else 1)
    {
      ok := *;
      if ok {
        written := written + data;
      } else {
        var n: nat :| n <= |data|;
        written := written + data[..n];
        failures := failures + 1;
      }
    }
  }

  /** Everything else around a transfer that may go wrong: what was tried, in order, and
      what failed. */
  class Surroundings<E> {
    ghost var tried: seq<E>
    ghost var failed: seq<E>

    constructor ()
      ensures tried == failed == []
    {
      tried, failed := [], [];
    }

    /** Whether it goes wrong this time. */
    method Fails(what: E) returns (fails: bool)
      modifies this
      ensures tried == old(tried) + [what]
      ensures failed == old(failed) + (if fails then [what] else [])
    {
      fails := *;
      tried := tried + [what];
      if fails {
        failed := failed + [what];
      }
    }
  }
}
