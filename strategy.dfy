/** The choice between the chunked and the single-stream download. */
module Strategy {
  import opened Wrappers
  import ChunkPlan
  import opened Text

  /** The `Accept-Ranges` value as read by `headers.get('Accept-Ranges', '')`. */
  function AcceptRangesValue(header: Option<string>): string {
    match header
    case Some(v) => v
    case None => ""
  }

  /** Download in 4 MiB ranges only when the file is larger than one chunk
      and the server's `Accept-Ranges` value contains `bytes`. */
  predicate UseChunked(totalSize: int, acceptRanges: Option<string>)
    ensures UseChunked(totalSize, acceptRanges) ==>
      totalSize > 4 * 1024 * 1024 && acceptRanges.Some? && |acceptRanges.value| >= 5
  {
    totalSize > ChunkPlan.ChunkSize && Contains(AcceptRangesValue(acceptRanges), "bytes")
  }

  /** The chunked path is taken iff the size exceeds 4 MiB and the server
      sent an `Accept-Ranges` value in which `bytes` occurs. */
  lemma StrategyChoice(totalSize: int, acceptRanges: Option<string>)
    ensures UseChunked(totalSize, acceptRanges) <==>
      totalSize > 4 * 1024 * 1024 && acceptRanges.Some? &&
      exists i :: OccursAt(acceptRanges.value, "bytes", i)
  {
    ContainsIffOccurs(AcceptRangesValue(acceptRanges), "bytes");
    if acceptRanges.None? {
      assert !Contains("", "bytes");
    }
  }

  /** A file of at most one chunk always goes through the single stream,
      whatever the server advertises; so does a server that sends `none`. */
  lemma SmallOrUnrangedIsSingleStream(totalSize: int, acceptRanges: Option<string>)
    ensures totalSize <= ChunkPlan.ChunkSize ==> !UseChunked(totalSize, acceptRanges)
    ensures acceptRanges == Some("none") ==> !UseChunked(totalSize, acceptRanges)
    ensures acceptRanges == Some("bytes") ==> (UseChunked(totalSize, acceptRanges) <==> totalSize > ChunkPlan.ChunkSize)
  {
    if acceptRanges == Some("none") {
      StrategyChoice(totalSize, acceptRanges);
    }
    if acceptRanges == Some("bytes") {
      assert "bytes" <= "bytes";
    }
  }
}
