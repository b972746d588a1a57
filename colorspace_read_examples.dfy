/**
 * The two read conversions the colorspace utilities' unit tests check,
 * worked out on the model. With the converters' contracts these are the
 * results the tests expect from a freshly constructed utilities object.
 */
module ColorspaceReadExamples {
  import opened Outcome
  import opened ColorspaceHeader
  import opened ColorspaceTables
  import opened ColorspaceTranscoding

  /** A read of canonical bases is encodable, and each colour is the table entry of its transition. */
  lemma CanonicalReadEncoded(read: seq<char>)
    requires |read| >= 1 && forall i :: 0 <= i < |read| ==> IsCanonicalBase(read[i])
    ensures Encodable(InitialColorspaceMap(), GetSimplifiedBase, read)
    ensures forall i :: 0 <= i < |read| - 1 ==>
      ColorspaceEntry(read[i], read[i + 1]) == Some(Encoded(InitialColorspaceMap(), GetSimplifiedBase, read)[i])
  {
    forall i | 0 < i < |read|
      ensures (GetSimplifiedBase(read[i - 1]), GetSimplifiedBase(read[i])) in InitialColorspaceMap()
    {
      DecodeInvertsEncode(read[i - 1], read[i]);
    }
  }

  /** The basespace read of the pseudo-colorspace test and the colours it should become. */
  const BASESPACE_READ := "AATCTGAGAGGCAGAGGTTGCAGTGAGCTGAGATTGTGCC"
  const BASESPACE_READ_COLOURS := "ATGGCGGGGATCGGGACACTCGCCGGTGCGGGTACCCTA"

  lemma BasespaceReadCanonical()
    ensures forall i :: 0 <= i < |BASESPACE_READ| ==> IsCanonicalBase(BASESPACE_READ[i])
  {
    forall i | 0 <= i < |BASESPACE_READ|
      ensures IsCanonicalBase(BASESPACE_READ[i])
    {
      assert i == 0 || i == 1 || i == 2 || i == 3 || i == 4 || i == 5 || i == 6 || i == 7 || i == 8 || i == 9 ||
        i == 10 || i == 11 || i == 12 || i == 13 || i == 14 || i == 15 || i == 16 || i == 17 || i == 18 || i == 19 ||
        i == 20 || i == 21 || i == 22 || i == 23 || i == 24 || i == 25 || i == 26 || i == 27 || i == 28 || i == 29 ||
        i == 30 || i == 31 || i == 32 || i == 33 || i == 34 || i == 35 || i == 36 || i == 37 || i == 38 || i == 39;
    }
  }

  lemma BasespaceReadTransitions()
    ensures |BASESPACE_READ_COLOURS| == |BASESPACE_READ| - 1
    ensures forall i :: 0 <= i < |BASESPACE_READ_COLOURS| ==>
      ColorspaceEntry(BASESPACE_READ[i], BASESPACE_READ[i + 1]) == Some(BASESPACE_READ_COLOURS[i])
  {
    forall i | 0 <= i < |BASESPACE_READ_COLOURS|
      ensures ColorspaceEntry(BASESPACE_READ[i], BASESPACE_READ[i + 1]) == Some(BASESPACE_READ_COLOURS[i])
    {
      assert i == 0 || i == 1 || i == 2 || i == 3 || i == 4 || i == 5 || i == 6 || i == 7 || i == 8 || i == 9 ||
        i == 10 || i == 11 || i == 12 || i == 13 || i == 14 || i == 15 || i == 16 || i == 17 || i == 18 || i == 19 ||
        i == 20 || i == 21 || i == 22 || i == 23 || i == 24 || i == 25 || i == 26 || i == 27 || i == 28 || i == 29 ||
        i == 30 || i == 31 || i == 32 || i == 33 || i == 34 || i == 35 || i == 36 || i == 37 || i == 38;
    }
  }

  /** ConvertReadBasespaceToPseudoColorspace turns the test read into the expected colours. */
  lemma ConvertReadBasespaceToPseudoColorspaceTestRead()
    ensures Encodable(InitialColorspaceMap(), GetSimplifiedBase, BASESPACE_READ)
    ensures Encoded(InitialColorspaceMap(), GetSimplifiedBase, BASESPACE_READ) == BASESPACE_READ_COLOURS
  {
    BasespaceReadCanonical();
    CanonicalReadEncoded(BASESPACE_READ);
    BasespaceReadTransitions();
  }

  /** The colorspace read of the colorspace-to-pseudo-colorspace test and the letters it should become. */
  const COLOUR_READ := "03030300033332333-1111"
  const COLOUR_READ_LETTERS := "ATATATAAATTTTGTTTNCCCC"

  /** ConvertReadColorspaceToPseudoColorspace maps every character of the test read to the expected letter. */
  lemma ConvertReadColorspaceToPseudoColorspaceTestRead()
    ensures |COLOUR_READ_LETTERS| == |COLOUR_READ|
    ensures forall i :: 0 <= i < |COLOUR_READ| ==> PseudoOfColour(COLOUR_READ[i]) == Some(COLOUR_READ_LETTERS[i])
  {
    forall i | 0 <= i < |COLOUR_READ|
      ensures PseudoOfColour(COLOUR_READ[i]) == Some(COLOUR_READ_LETTERS[i])
    {
      assert i == 0 || i == 1 || i == 2 || i == 3 || i == 4 || i == 5 || i == 6 || i == 7 || i == 8 || i == 9 ||
        i == 10 || i == 11 || i == 12 || i == 13 || i == 14 || i == 15 || i == 16 || i == 17 || i == 18 || i == 19 ||
        i == 20 || i == 21;
    }
  }
}
