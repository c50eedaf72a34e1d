/** The streaming loader (downloadWithProgress in hooks/use-sqlite.tsx):
    reads the response body chunk by chunk, reports progress against an
    assumed total size, then copies the chunks into one preallocated buffer. */
module Loader {
  import opened Base
  import opened Seqs

  /** The response body could not be read as a stream. */
  const NO_READER_MESSAGE := "Failed to get response reader"

  /** The highest value reported while chunks are still arriving. */
  const LOOP_CAP: real := 99.0

  /** The value reported once, after the last chunk. */
  const COMPLETE: real := 100.0

  /** The progress reported after `received` bytes: the percentage of an
      assumed file size of 800 000 000 bytes, capped at LOOP_CAP. */
  function Reported(received: nat): (p: real)
    ensures 0.0 <= p <= LOOP_CAP
    ensures p < LOOP_CAP ==> p * 8_000_000.0 == received as real
    ensures received < 792_000_000 ==> p * 8_000_000.0 == received as real
    ensures received >= 792_000_000 ==> p == LOOP_CAP
  {
    var ratio := received as real / 800_000_000.0 * 100.0;
    if ratio < LOOP_CAP then ratio else LOOP_CAP
  }

  /** The values handed to the progress callback inside the read loop, one
      per chunk, each computed from the bytes received so far. */
  function LoopReports(chunks: seq<seq<byte>>): (r: seq<real>)
    ensures |r| == |chunks|
    ensures forall k | 0 <= k < |r| :: 0.0 <= r[k] <= LOOP_CAP
  {
    if chunks == [] then []
    else LoopReports(chunks[..|chunks| - 1]) + [Reported(TotalLength(chunks))]
  }

  /** The i-th report is computed from the first i + 1 chunks. */
  lemma {:induction false} LoopReportsAt(chunks: seq<seq<byte>>, i: nat)
    requires i < |chunks|
    ensures |LoopReports(chunks)| == |chunks|
    ensures LoopReports(chunks)[i] == Reported(TotalLength(chunks[..i + 1]))
  {
    var n := |chunks| - 1;
    if i == n {
      assert chunks[..i + 1] == chunks;
      if n > 0 {
        LoopReportsAt(chunks[..n], 0);
      }
    } else {
      LoopReportsAt(chunks[..n], i);
      assert chunks[..n][..i + 1] == chunks[..i + 1];
    }
  }

  /** More bytes received never lowers the reported value. */
  lemma ReportedMonotone(a: nat, b: nat)
    requires a <= b
    ensures Reported(a) <= Reported(b)
  {
    assert a as real / 800_000_000.0 <= b as real / 800_000_000.0;
  }

  /** Reports made while reading never decrease and never reach completion. */
  lemma LoopReportsMonotone(chunks: seq<seq<byte>>, i: nat, j: nat)
    requires i <= j < |chunks|
    ensures LoopReports(chunks)[i] <= LoopReports(chunks)[j] <= LOOP_CAP < COMPLETE
  {
    LoopReportsAt(chunks, i);
    LoopReportsAt(chunks, j);
    TotalLengthMonotone(chunks, i + 1, j + 1);
    ReportedMonotone(TotalLength(chunks[..i + 1]), TotalLength(chunks[..j + 1]));
  }

  /** Reading `body` (None when the response has no readable stream):
      the result is the chunks joined in receipt order, and the progress
      trace is one report per chunk followed by exactly one COMPLETE. */
  method DownloadWithProgress(body: Option<seq<seq<byte>>>)
    returns (r: Result<array<byte>, string>, progress: seq<real>)
    ensures body.None? ==> r == Failure(NO_READER_MESSAGE) && progress == []
    ensures body.Some? ==> r.Success?
    ensures body.Some? ==> r.value.Length == TotalLength(body.value)
    ensures body.Some? ==> r.value[..] == Concat(body.value)
    ensures body.Some? ==> progress == LoopReports(body.value) + [COMPLETE]
  {
    if body.None? {
      return Failure(NO_READER_MESSAGE), [];
    }
    var reader := body.value;
    var chunks: seq<seq<byte>> := [];
    var receivedLength: nat := 0;
    progress := [];
    var i := 0;
    while i < |reader|
      invariant 0 <= i <= |reader|
      invariant chunks == reader[..i]
      invariant receivedLength == TotalLength(chunks)
      invariant progress == LoopReports(chunks)
    {
      var value := reader[i];
      assert (chunks + [value])[..|chunks|] == chunks;
      chunks := chunks + [value];
      receivedLength := receivedLength + |value|;
      progress := progress + [Reported(receivedLength)];
      i := i + 1;
    }
    assert chunks == reader;

    var concatenated := JoinChunks(chunks, receivedLength);
    progress := progress + [COMPLETE];
    r := Success(concatenated);
  }

  /** Copies the chunks, in order, into one new buffer of `receivedLength`
      bytes, each at the offset where the previous one ended. */
  method JoinChunks(chunks: seq<seq<byte>>, receivedLength: nat) returns (concatenated: array<byte>)
    requires receivedLength == TotalLength(chunks)
    ensures concatenated.Length == receivedLength
    ensures concatenated[..] == Concat(chunks)
  {
    concatenated := new byte[receivedLength];
    var offset := 0;
    for n := 0 to |chunks|
      invariant offset == TotalLength(chunks[..n]) <= receivedLength
      invariant concatenated[..offset] == Concat(chunks[..n])
    {
      var chunk := chunks[n];
      assert TotalLength(chunks[..n + 1]) == offset + |chunk| <= receivedLength
          && Concat(chunks[..n + 1]) == Concat(chunks[..n]) + chunk by {
        assert chunks[..n + 1] == chunks[..n] + [chunk];
        ConcatSnoc(chunks[..n], chunk);
        TotalLengthMonotone(chunks, n + 1, |chunks|);
        assert chunks[..|chunks|] == chunks;
      }
      CopyAt(concatenated, offset, chunk);
      offset := offset + |chunk|;
    }
    assert chunks[..|chunks|] == chunks;
    ConcatLength(chunks);
  }

  /** Writes `chunk` into `buffer` starting at `offset`, keeping what lies before it. */
  method CopyAt(buffer: array<byte>, offset: nat, chunk: seq<byte>)
    requires offset + |chunk| <= buffer.Length
    modifies buffer
    ensures buffer[..offset + |chunk|] == old(buffer[..offset]) + chunk
    ensures buffer[offset + |chunk|..] == old(buffer[offset + |chunk|..])
  {
    forall k | 0 <= k < |chunk| {
      buffer[offset + k] := chunk[k];
    }
    assert buffer[..offset + |chunk|] == buffer[..offset] + buffer[offset..offset + |chunk|];
  }
}
