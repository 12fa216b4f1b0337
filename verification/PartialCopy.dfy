/**
 Copying at most a given number of bytes from one stream to another, keeping a sample
 of the first of them.
 */
module PartialCopy {
  import opened Bytes
  import opened Results
  import opened ByteStreams
  import opened Chunks

  const COPY_BUFFER_SIZE: nat := 81920

  datatype CopyError = NegativeLength | SourceFailed | DestinationFailed

  /** `written` is `before` with some of `data` appended. */
  predicate Partway(before: seq<byte>, written: seq<byte>, data: seq<byte>) {
    before <= written <= before + data
  }

  /** `sample` with `data` written over it from `at` on, as far as there is room. */
  function Overwritten(sample: seq<byte>, at: nat, data: seq<byte>): seq<byte> {
    seq(|sample|, i requires 0 <= i < |sample| => if at <= i < at + |data| then data[i - at] else sample[i])
  }

  lemma OverwrittenInTurn(sample: seq<byte>, taken: seq<byte>, chunk: seq<byte>)
    ensures Overwritten(Overwritten(sample, 0, taken), Min(|sample|, |taken|), chunk) ==
            Overwritten(sample, 0, taken + chunk)
  {
  }

  /** A rented buffer is at least as long as asked for. */
  method Rent(minimum: nat) returns (buf: array<byte>)
    ensures fresh(buf) && buf.Length >= minimum
  {
    var extra: nat :| true;
    buf := new byte[minimum + extra](_ => 0);
  }

  method FillSample(sample: array<byte>, at: nat, data: seq<byte>) returns (at': nat)
    requires at <= sample.Length
    modifies sample
    ensures at' == at + Min(|data|, sample.Length - at)
    ensures sample[..] == Overwritten(old(sample[..]), at, data)
  {
    var n := Min(|data|, sample.Length - at);
    forall i | 0 <= i < n {
      sample[at + i] := data[i];
    }
    at' := at + n;
  }

  /** One round: read a chunk, fill the sample from `at` on as far as there is room, and
      write the chunk. */
  method CopyOnce(source: ByteStream, destination: ByteSink, copyBuffer: array<byte>, count: nat,
      sample: array<byte>, at: nat)
      returns (r: Result<nat, CopyError>, at': nat, ghost chunk: seq<byte>)
    requires count <= copyBuffer.Length && at <= sample.Length && copyBuffer != sample
    modifies source, destination, copyBuffer, sample
    ensures r.Err? ==> !r.error.NegativeLength?
    ensures source.failures == old(source.failures) + (if r == Err(SourceFailed) then 1 else 0)
    ensures destination.failures == old(destination.failures) + (if r == Err(DestinationFailed) then 1 else 0)
    ensures
      && |chunk| <= count
      && chunk <= old(source.rest)
      && Partway(old(destination.written), destination.written, chunk)
    ensures r.Ok? ==>
      && r.value == |chunk| && (chunk == [] <==> count == 0 || old(source.rest) == [])
      && old(source.rest) == chunk + source.rest
      && destination.written == old(destination.written) + chunk
      && at' == at + Min(|chunk|, sample.Length - at)
      && sample[..] == Overwritten(old(sample[..]), at, chunk)
  {
    at', chunk := at, [];
    var read := source.Read(copyBuffer, 0, count);
    if read.Err? {
      return Err(SourceFailed), at, [];
    }
    var readBytes := copyBuffer[..read.value];
    chunk := old(source.rest)[..read.value];
    assert readBytes == chunk;
    at' := FillSample(sample, at, readBytes);
    var ok := destination.WriteAll(readBytes);
    r := if ok then Ok(|readBytes|) else Err(DestinationFailed);
  }

  /** It fails exactly when a read or a write fails, or the length is negative. Otherwise,
      under every schedule of short reads, n = min(length, bytes available) bytes are
      appended to the destination, the rest stays unread, and the sample holds as many
      of the first n bytes as it has room for. */
  method PartiallyCopyTo(source: ByteStream, destination: ByteSink, lengthToCopy: int, sample: array<byte>)
      returns (r: Result<nat, CopyError>)
    modifies source, destination, sample
    ensures source.failures == old(source.failures) + (if r == Err(SourceFailed) then 1 else 0)
    ensures destination.failures == old(destination.failures) + (if r == Err(DestinationFailed) then 1 else 0)
    ensures r == Err(NegativeLength) <==> lengthToCopy < 0
    ensures lengthToCopy < 0 ==>
      && r == Err(NegativeLength)
      && source.rest == old(source.rest)
      && destination.written == old(destination.written)
      && sample[..] == old(sample[..])
    ensures r.Err? && lengthToCopy >= 0 ==>
      && !r.error.NegativeLength?
      && Partway(old(destination.written), destination.written,
                 old(source.rest)[..Min(lengthToCopy, |old(source.rest)|)])
    ensures r.Ok? ==>
      && r.value == Min(lengthToCopy, |old(source.rest)|)
      && source.rest == old(source.rest)[r.value..]
      && destination.written == old(destination.written) + old(source.rest)[..r.value]
      && sample[..] == Overwritten(old(sample[..]), 0, old(source.rest)[..r.value])
  {
    if lengthToCopy < 0 {
      return Err(NegativeLength);
    }
    ghost var data, before := source.rest, destination.written;
    var copyBuffer := Rent(Min(lengthToCopy, COPY_BUFFER_SIZE));
    var remaining: nat := lengthToCopy;
    var sampleAt: nat := 0;
    ghost var taken: seq<byte> := [];
    var goOn := true;   // a do-while loop: the test comes last
    while goOn
      invariant fresh(copyBuffer) && (lengthToCopy > 0 ==> copyBuffer.Length > 0)
      invariant remaining + |taken| == lengthToCopy
      invariant sampleAt == Min(sample.Length, |taken|)
      invariant data == taken + source.rest
      invariant destination.written == before + taken
      invariant source.failures == old(source.failures) && destination.failures == old(destination.failures)
      invariant sample[..] == Overwritten(old(sample[..]), 0, taken)
      invariant !goOn ==> |taken| == Min(lengthToCopy, |data|)
      decreases goOn, |source.rest|
    {
      var n;
      ghost var chunk;
      n, sampleAt, chunk := CopyOnce(source, destination, copyBuffer, Min(remaining, copyBuffer.Length), sample,
          sampleAt);
      if n.Err? {
        WithinTheCopy(before, destination.written, data, taken, chunk, Min(lengthToCopy, |data|));
        return Err(n.error);
      }
      Associates(taken, chunk, source.rest);
      Associates(before, taken, chunk);
      OverwrittenInTurn(old(sample[..]), taken, chunk);
      taken := taken + chunk;
      remaining := remaining - n.value;
      goOn := n.value > 0 && remaining > 0;
    }
    WholeCopy(taken, source.rest, lengthToCopy);
    r := Ok(lengthToCopy - remaining);
  }

  /** What was taken is all that was asked for or all there was. */
  lemma WholeCopy(taken: seq<byte>, rest: seq<byte>, length: nat)
    requires |taken| == Min(length, |taken + rest|)
    ensures var n := Min(length, |taken + rest|); (taken + rest)[..n] == taken && (taken + rest)[n..] == rest
  {
  }

  /** Between two points of the copy the destination stays within what is to be copied. */
  lemma WithinTheCopy(before: seq<byte>, written: seq<byte>, data: seq<byte>, taken: seq<byte>, chunk: seq<byte>,
      most: nat)
    requires taken + chunk <= data && |taken + chunk| <= most <= |data|
    requires Partway(before + taken, written, chunk)
    ensures Partway(before, written, data[..most])
  {
    Associates(before, taken, chunk);
    assert data[..most] == taken + chunk + data[|taken + chunk|..most];
    Associates(before, taken + chunk, data[|taken + chunk|..most]);
  }
}
