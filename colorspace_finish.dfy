/**
 * The last stages of the main utilities' ConvertAlignmentToBasespace, once
 * the basespace reference and query are built: the ambiguity-aware mismatch
 * count, the per-base qualities and the end coordinates.
 */
module ColorspaceFinish {
  import opened Outcome
  import opened Bytes
  import opened ColorspaceHeader
  import opened ColorspaceAlignment
  import opened Alignments

  /**
   * The mismatch count of the main utilities: the positions whose sorted
   * (reference, query) pair is not an ambiguity-code equivalence.
   */
  function AmbiguityMismatches(ambiguity: set<(char, char)>, reference: seq<char>, query: seq<char>): (n: nat)
    requires |reference| <= |query|
    ensures n <= |reference|
    ensures n == 0 <==> forall i :: 0 <= i < |reference| ==> SortedPair(reference[i], query[i]) in ambiguity
  {
    if |reference| == 0 then 0
    else
      var last := |reference| - 1;
      AmbiguityMismatches(ambiguity, reference[..last], query) + (if SortedPair(reference[last], query[last]) in ambiguity then 0 else 1)
  }

  /**
   * The alignment ConvertAlignmentToBasespace leaves once its basespace
   * reference and query are built: the ambiguity-aware mismatch count over
   * them, one quality per base, and the advanced ends. Without a colour
   * quality the remapping reads outside the quality string.
   */
  function Finished(ambiguity: set<(char, char)>, al: Alignment, bsReference: seq<char>, bsQuery: seq<char>): (r: Result<Alignment>)
    requires |bsReference| == |bsQuery| < U16_LIMIT && |al.BaseQualities| < U16_LIMIT
    ensures r.Ok? <==> 1 <= |al.BaseQualities|
    ensures r.Ok? ==> r.value.Reference == bsReference && r.value.Query == bsQuery
    ensures r.Ok? ==> |r.value.BaseQualities| == |al.BaseQualities| + 1
    ensures r.Ok? ==> r.value.QueryEnd as int == (al.QueryEnd as int + 1) % U16_LIMIT
  {
    if |al.BaseQualities| == 0 then Err(Undefined("no colour quality to remap"))
    else
      var numMismatches: u16 := AmbiguityMismatches(ambiguity, bsReference, bsQuery);
      var bsQualities := RemappedQualities(al.BaseQualities);
      Ok(EndsAdvanced(al).(Reference := bsReference, Query := bsQuery,
                           NumMismatches := numMismatches, BaseQualities := bsQualities))
  }

}
