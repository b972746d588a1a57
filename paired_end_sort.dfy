/**
 * The pair-model helpers of the paired-end sorter: the alignment model of a
 * resolved pair (mate order and orientations), the ordering of model counts,
 * and the exchange of mate information between the two alignments of a pair.
 */
module PairedEndSort {
  import opened Bytes
  import opened Alignments

  /** The placeholder model that no pair of mates is given. */
  const DUMMY_MODEL: u8 := 100

  /** 1 for a reverse-strand mate, 0 for a forward one. */
  function Bit(b: bool): nat
  {
    if b then 1 else 0
  }

  /**
   * GetCurrentModel: one of four models when mate 1 starts first, picked by
   * the two orientations, and one of four others when it does not.
   */
  function GetCurrentModel(m1Begin: u32, m1IsReverseStrand: bool, m2Begin: u32, m2IsReverseStrand: bool): (model: u8)
    ensures m1Begin < m2Begin ==> model == 2 * Bit(m1IsReverseStrand) + Bit(m2IsReverseStrand)
    ensures m1Begin >= m2Begin ==> model == 4 + 2 * Bit(m2IsReverseStrand) + Bit(m1IsReverseStrand)
  {
    if m1Begin < m2Begin then
      if !m1IsReverseStrand && !m2IsReverseStrand then 0
      else if !m1IsReverseStrand && m2IsReverseStrand then 1
      else if m1IsReverseStrand && !m2IsReverseStrand then 2
      else 3
    else
      if !m2IsReverseStrand && !m1IsReverseStrand then 4
      else if !m2IsReverseStrand && m1IsReverseStrand then 5
      else if m2IsReverseStrand && !m1IsReverseStrand then 6
      else 7
  }

  /** Every model is one of the eight real ones; the lower four are exactly the pairs whose first mate starts first. */
  lemma ModelRange(m1Begin: u32, m1IsReverseStrand: bool, m2Begin: u32, m2IsReverseStrand: bool)
    ensures GetCurrentModel(m1Begin, m1IsReverseStrand, m2Begin, m2IsReverseStrand) < 8
    ensures GetCurrentModel(m1Begin, m1IsReverseStrand, m2Begin, m2IsReverseStrand) != DUMMY_MODEL
    ensures GetCurrentModel(m1Begin, m1IsReverseStrand, m2Begin, m2IsReverseStrand) < 4 <==> m1Begin < m2Begin
  {
  }

  /** Two pairs get the same model exactly when they agree on mate order and on both orientations. */
  lemma ModelsDistinguishPairs(a1Begin: u32, a1Reverse: bool, a2Begin: u32, a2Reverse: bool,
                               b1Begin: u32, b1Reverse: bool, b2Begin: u32, b2Reverse: bool)
    ensures GetCurrentModel(a1Begin, a1Reverse, a2Begin, a2Reverse) == GetCurrentModel(b1Begin, b1Reverse, b2Begin, b2Reverse)
            <==> (a1Begin < a2Begin <==> b1Begin < b2Begin) && a1Reverse == b1Reverse && a2Reverse == b2Reverse
  {
  }

  /** How often one pair model was seen. */
  datatype ModelType = ModelType(ID: u8, Count: u32)

  /** ModelType::operator<: a model sorts before another when it was seen more often. */
  predicate ModelBefore(a: ModelType, b: ModelType)
  {
    b.Count < a.Count
  }

  /**
   * The ordering is a strict weak order that sorts by descending count: two
   * models are unordered exactly when their counts are equal.
   */
  lemma ModelBeforeIsStrictWeakOrder(a: ModelType, b: ModelType, c: ModelType)
    ensures !ModelBefore(a, a)
    ensures ModelBefore(a, b) ==> !ModelBefore(b, a)
    ensures ModelBefore(a, b) && ModelBefore(b, c) ==> ModelBefore(a, c)
    ensures !ModelBefore(a, b) && !ModelBefore(b, a) <==> a.Count == b.Count
    ensures ModelBefore(a, b) <==> a.Count > b.Count
  {
  }

  /** Each mate's Mate* fields hold the other mate's own position and orientation. */
  predicate MatesAgree(mate1: Alignment, mate2: Alignment)
  {
    mate1.MateReferenceIndex == mate2.ReferenceIndex && mate1.MateReferenceBegin == mate2.ReferenceBegin &&
    mate1.MateReferenceEnd == mate2.ReferenceEnd && mate1.IsMateReverseStrand == mate2.IsReverseStrand &&
    mate2.MateReferenceIndex == mate1.ReferenceIndex && mate2.MateReferenceBegin == mate1.ReferenceBegin &&
    mate2.MateReferenceEnd == mate1.ReferenceEnd && mate2.IsMateReverseStrand == mate1.IsReverseStrand
  }

  /** The two alignments differ at most in the four Mate* fields and IsResolvedAsPair. */
  predicate SameExceptMateInfo(a: Alignment, b: Alignment)
  {
    a.(MateReferenceIndex := 0, MateReferenceBegin := 0, MateReferenceEnd := 0, IsMateReverseStrand := false, IsResolvedAsPair := false) ==
    b.(MateReferenceIndex := 0, MateReferenceBegin := 0, MateReferenceEnd := 0, IsMateReverseStrand := false, IsResolvedAsPair := false)
  }

  /**
   * ExchangeMateInfo: mate 1 takes mate 2's position and orientation as its
   * mate information, then mate 2 takes mate 1's; both become resolved pairs.
   * The alignments come in as values and go out updated.
   */
  method ExchangeMateInfo(mate1: Alignment, mate2: Alignment) returns (m1: Alignment, m2: Alignment)
    ensures MatesAgree(m1, m2) && m1.IsResolvedAsPair && m2.IsResolvedAsPair
    ensures SameExceptMateInfo(m1, mate1) && SameExceptMateInfo(m2, mate2)
    ensures MatesAgree(mate1, mate2) && mate1.IsResolvedAsPair && mate2.IsResolvedAsPair ==> m1 == mate1 && m2 == mate2
  {
    m1, m2 := mate1, mate2;
    m1 := m1.(MateReferenceIndex := m2.ReferenceIndex);
    m1 := m1.(MateReferenceBegin := m2.ReferenceBegin);
    m1 := m1.(MateReferenceEnd := m2.ReferenceEnd);
    m1 := m1.(IsMateReverseStrand := m2.IsReverseStrand);
    m1 := m1.(IsResolvedAsPair := true);

    m2 := m2.(MateReferenceIndex := m1.ReferenceIndex);
    m2 := m2.(MateReferenceBegin := m1.ReferenceBegin);
    m2 := m2.(MateReferenceEnd := m1.ReferenceEnd);
    m2 := m2.(IsMateReverseStrand := m1.IsReverseStrand);
    m2 := m2.(IsResolvedAsPair := true);
  }
}
