# Mosaik core in Dafny

This project models the sequential core of the Mosaik read aligner. It has three parts.

- **Colorspace to basespace conversion.** A SOLiD colorspace alignment (reference and query written as colour transitions) is turned into a basespace alignment. The steps are:
  - count the reference gaps in each prefix;
  - patch the gap runs;
  - split the pairwise strings into maximal identity runs;
  - rebuild each run from the genome and the seed-and-colour tables;
  - recount the mismatches;
  - remap the per-transition qualities to per-base qualities;
  - move both end coordinates by one.

  Two variants exist, each in its own modules:
  - the current one, `Colorspace` (the `ColorspaceUtilities` class), with `ColorspaceHeader`, `ColorspaceTables`, `ColorspaceAlignment`, `ColorspaceTranscoding`, `ColorspaceDerivation`, `ColorspaceFinish` and `ColorspaceReadExamples` (the unit tests' read conversions);
  - the legacy one, which fills gaps with N: `LegacyColorspace`, `LegacyColorspaceTables` and `LegacyColorspaceHeader`.

  The read-level converters between colorspace digits, pseudo-colorspace letters and basespace are included. The legacy file's `ConvertReadColorspaceToPseudoColorspace` and `ConvertReadPseudoColorspaceToColorspace` (src/CommonSource/Utilities/ColorspaceUtilities.cpp:199-259) are the same code as the current ones (CommonSource/Utilities/ColorspaceUtilities.cpp:230-290), so the `ColorspaceTranscoding` members model both; only the legacy basespace-to-pseudo-colorspace converter, which uses its own table, has its own member.
- **The jump database.** This is the k-mer index of the reference genome.
  - **Building it.** The creator:
    - packs each fragment into a 64-bit key;
    - scans the reference with a sliding window that skips J, X and N;
    - buffers, sorts and flushes hash positions to temporary files;
    - merges those files, grouping equal hashes;
    - writes every group, the 50-byte header and the reference-sequence index.

    Modules: `JumpRecords`, `JumpCreation`, `JumpDatabase`, `JumpIndex`.
  - **Querying it.** `JumpDnaHash::Get` (module `JumpQuery`):
    - reads a key's five-byte offset;
    - recognises the absent marker;
    - checks the offset against the positions file;
    - caps the positions read;
    - emits one hash region per position;
    - keeps an MRU cache for the disk path.
- **Byte serialisers and helpers.** These cover `Alignment` ordering and serialisation (`Alignments`), `AlignedRead::Serialize` (`AlignedReads`), the paired-end model and mate exchange (`PairedEndSort`), and `CMemoryUtilities::CheckBufferSize` (`MemoryUtilities`).
  - `Bytes` holds the little-endian encoding shared by the serialisers.
  - `Outcome` holds the `Result` type. Its failures are either `Fatal`, where the program prints an error and exits, or `Undefined`, where the program's behaviour is undefined (a read past a buffer, a wrapped count).

Where the program changes state, the model keeps that form:
- `ColorspaceUtilities` and `JumpDnaHash` are classes whose fields the methods update.
- Loops are methods with invariants, proved against specification functions. The lemmas beside them state the properties of those functions.
- Files are byte sequences, and the genome is a parameter.

## Model

| member | source | states |
|---|---|---|
| MemoryUtilities.GrownLength | CommonSource/Utilities/MemoryUtilities.cpp:18 | the new length as written: the request plus ten in unsigned int arithmetic, the exact sum below 2^32 and the sum minus 2^32 above |
| MemoryUtilities.GrownLengthWraps | CommonSource/Utilities/MemoryUtilities.cpp:15-26 | a request of 2^32 - 1 bytes yields a buffer of 9 bytes, shorter than the request |
| MemoryUtilities.SaturatedLength | CommonSource/Utilities/MemoryUtilities.cpp:17-20 | the length growth evidently means covers the request and equals the written one wherever that one does not wrap |
| MemoryUtilities.CheckBufferSize | CommonSource/Utilities/MemoryUtilities.cpp:15-40 | a request above the tracked length replaces the buffer by a fresh one of the grown length; otherwise buffer and length stay; the new length never falls below the request or the old length |
| MemoryUtilities.CheckedLengthGrows | CommonSource/Utilities/MemoryUtilities.cpp:17-21 | the length after a call covers the request and the old length, stays the same exactly when the request fits, and a repeated request changes nothing |
| Alignments.PrecedesIsStrictWeakOrder | CommonSource/DataStructures/Alignment.h:65-68 | operator< is irreflexive, asymmetric and transitive, and two alignments are unordered exactly when they share reference index and begin |
| Alignments.CharBytes | CommonSource/DataStructures/Alignment.h:146-149 | one byte per character, each the character's low byte |
| Alignments.FirstMateBitReadBack | CommonSource/DataStructures/Alignment.h:96-98 | with separate non-zero flag values, the first-mate bit of the status byte is set exactly for the first mate of a paired-end read |
| Alignments.SecondMateBitReadBack | CommonSource/DataStructures/Alignment.h:96-99 | the second-mate bit is set exactly for the other mate of a paired-end read |
| Alignments.ReverseStrandBitReadBack | CommonSource/DataStructures/Alignment.h:96-100 | the reverse-strand bit is set exactly for a reverse-strand alignment |
| Alignments.RescuedBitReadBack | CommonSource/DataStructures/Alignment.h:96-101 | the rescued bit is set exactly for a rescued alignment |
| Alignments.ExtentBytes | CommonSource/DataStructures/Alignment.h:109-136 | the extents take six bytes when the query end or the pairwise length exceeds 255 and three otherwise |
| Alignments.HeadBytes | CommonSource/DataStructures/Alignment.h:80-107 | the head of a record is sixteen bytes |
| Alignments.SerializationSizeMatches | CommonSource/DataStructures/Alignment.h:71-75 | when the pairwise length fits an unsigned short and the size an unsigned int, GetSerializationSize is the number of bytes Serialize writes |
| Alignments.SerializationSizeCovers | CommonSource/DataStructures/Alignment.h:71-140 | without the unsigned int wrap, GetSerializationSize (full length) never undercounts what Serialize writes (length cut to an unsigned short), and equals it exactly when the pairwise length fits an unsigned short |
| Alignments.HeadRoundTrip | CommonSource/DataStructures/Alignment.h:80-107 | begin, end and index decode from bytes 0-12, quality and status are bytes 12 and 13, and the mismatch count decodes from bytes 14-16 |
| Alignments.ExtentRoundTrip | CommonSource/DataStructures/Alignment.h:109-136 | the long form decodes to the pairwise length, query begin and query end; the short form holds their low bytes |
| Alignments.Put | CommonSource/DataStructures/Alignment.h:81-82 | a memcpy at the cursor writes exactly the given bytes there, advances the cursor by their number and leaves every other byte as it was |
| Alignments.Serialize | CommonSource/DataStructures/Alignment.h:78-150 | the bytes from the cursor are head, extents, the stored part of the packed pairwise string and the base qualities, the cursor ends after them, and nothing outside is touched |
| AlignedReads.NameLength | CommonSource/DataStructures/AlignedRead.h:48 | the stored name length is the name length cut to one byte, never longer than the name |
| AlignedReads.HaveMate1BitReadBack | CommonSource/DataStructures/AlignedRead.h:66-69 | the mate-1 bit of the read status is set exactly when mate 1 has alignments |
| AlignedReads.HaveMate2BitReadBack | CommonSource/DataStructures/AlignedRead.h:66-69 | the mate-2 bit is set exactly when mate 2 has alignments |
| AlignedReads.SizeSumMatches | CommonSource/DataStructures/AlignedRead.h:51-59 | the records of a mate take exactly the summed GetSerializationSize of its alignments |
| AlignedReads.EntrySizeMatches | CommonSource/DataStructures/AlignedRead.h:47-62 | when sizes fit an unsigned int, the entry size computed up front is the number of bytes written |
| AlignedReads.SizeSumCovers | CommonSource/DataStructures/AlignedRead.h:51-59 | without the unsigned int wrap, a mate's records never exceed the summed GetSerializationSize, and equal it exactly when every pairwise length fits an unsigned short |
| AlignedReads.EntrySizeCovers | CommonSource/DataStructures/AlignedRead.h:47-104 | without the unsigned int wrap, the bytes written never exceed the entry size computed up front, and equal it exactly when every pairwise length fits an unsigned short |
| AlignedReads.ReadHeaderLayout | CommonSource/DataStructures/AlignedRead.h:71-94 | the header is the name length, that many name bytes, the read group code, the status byte and the count of each mate with alignments, mate 1 first, each decoding back to its value |
| AlignedReads.SerializeAll | CommonSource/DataStructures/AlignedRead.h:97-104 | serialising the alignments one after another appends exactly their records to what is already written |
| AlignedReads.WriteHeader | CommonSource/DataStructures/AlignedRead.h:71-94 | the buffer starts with the header bytes |
| AlignedReads.WriteMate | CommonSource/DataStructures/AlignedRead.h:96-104 | a mate's records are appended when it has alignments, nothing otherwise |
| AlignedReads.Serialize | CommonSource/DataStructures/AlignedRead.h:36-107 | the resized buffer has the entry size and starts with the header followed by the records of mate 1 and of mate 2, which never overrun it; those bytes fill it exactly if and only if every pairwise length fits an unsigned short |
| PairedEndSort.GetCurrentModel | MosaikSort/PairedEndSort.h:185-205 | models 0-3 when mate 1 starts first, picked by the two orientations (mate 1's the high bit), models 4-7 otherwise (mate 2's the high bit) |
| PairedEndSort.ModelRange | MosaikSort/PairedEndSort.h:185-205 | every pair gets one of the eight models, never DUMMY_MODEL, and a model below 4 exactly when mate 1 starts first |
| PairedEndSort.ModelsDistinguishPairs | MosaikSort/PairedEndSort.h:185-205 | two pairs get the same model exactly when they agree on mate order and on both orientations |
| PairedEndSort.ModelBeforeIsStrictWeakOrder | MosaikSort/PairedEndSort.h:89-91 | ModelType::operator< is a strict weak order that puts the larger count first; equal counts are unordered |
| PairedEndSort.ExchangeMateInfo | MosaikSort/PairedEndSort.h:230-242 | afterwards each mate's Mate* fields hold the other's position and orientation, both are resolved pairs, nothing else changed, and a pair already exchanged is left as it was |
| ColorspaceHeader.Promoted | CommonSource/Utilities/ColorspaceUtilities.h:26 | a signed char promoted to int and cut to a short keeps its own low byte; below 0x80 it is zero-extended, from 0x80 up the high byte is all ones |
| ColorspaceHeader.SignedValue | CommonSource/Utilities/ColorspaceUtilities.h:27 | the value of a signed char lies in -128..127 and is negative exactly from byte 0x80 up |
| ColorspaceHeader.PackShort | CommonSource/Utilities/ColorspaceUtilities.h:26 | the short key holds the second character in its low byte; when that byte is below 0x80 the high byte is the first character, otherwise the sign extension fills the high byte with 0xFF |
| ColorspaceHeader.PackShortInjective | CommonSource/Utilities/ColorspaceUtilities.h:26 | an ordered pair of ASCII characters (every key the tables hold) shares its key with no other pair, so the tables never confuse two transitions |
| ColorspaceHeader.PackShortSignExtends | CommonSource/Utilities/ColorspaceUtilities.h:26 | with a second character of 0x80 or more the first is lost: ('A', 0xC3) and ('C', 0xC3) both pack to 0xFFC3 |
| ColorspaceHeader.PackSortedShort | CommonSource/Utilities/ColorspaceUtilities.h:27 | the key is PACK_SHORT of the pair in one of its two orders, and for ASCII characters the smaller one is in the high byte |
| ColorspaceHeader.PackSortedShortSymmetric | CommonSource/Utilities/ColorspaceUtilities.h:27 | the sorted key does not depend on the order of its two characters |
| ColorspaceHeader.PackSortedShortInjective | CommonSource/Utilities/ColorspaceUtilities.h:27 | an ASCII pair shares its sorted key exactly with itself and with its swap |
| ColorspaceHeader.PackSortedShortSignExtends | CommonSource/Utilities/ColorspaceUtilities.h:27 | two different pairs with a character of 0x80 or more can collide: (0xC2, 0xC4) and (0xC3, 0xC4) both pack to 0xFFC4 |
| ColorspaceHeader.SortedPair | CommonSource/Utilities/ColorspaceUtilities.h:27 | the ambiguity-set key of two characters: the same two characters, smaller first |
| ColorspaceHeader.SortedPairSymmetric | CommonSource/Utilities/ColorspaceUtilities.h:27 | the ambiguity-set key is symmetric in its two characters |
| ColorspaceHeader.NewRegion | CommonSource/Utilities/ColorspaceUtilities.h:36-39 | a new region starts where asked and is empty |
| ColorspaceHeader.GetSimplifiedBase | CommonSource/Utilities/ColorspaceUtilities.h:114-142 | characters outside the IUPAC ambiguity codes and X pass unchanged; each ambiguity code becomes one of the bases it stands for, always A, G or T; X becomes N |
| ColorspaceHeader.SimplifiedBaseIdempotent | CommonSource/Utilities/ColorspaceUtilities.h:114-142 | simplifying twice is simplifying once |
| ColorspaceHeader.CanonicalBasesAreFixed | CommonSource/Utilities/ColorspaceUtilities.h:114-148 | among the bases, N, X and the ambiguity codes, simplification fixes exactly the canonical bases and N, and it turns every ambiguity code into a canonical base |
| LegacyColorspaceHeader.GetSimplifiedBase | src/CommonSource/Utilities/ColorspaceUtilities.h:88-116 | the legacy simplification: other characters pass unchanged, each ambiguity code becomes one of its bases, N becomes X |
| LegacyColorspaceHeader.SimplifiedBaseIdempotent | src/CommonSource/Utilities/ColorspaceUtilities.h:88-116 | the legacy simplification is idempotent and leaves X alone |
| LegacyColorspaceHeader.DiffersFromMainOnlyOnNX | src/CommonSource/Utilities/ColorspaceUtilities.h:88-116 | the legacy and current simplifications agree on every character but N and X, where they map in opposite directions |
| ColorspaceTables.DecodeInvertsEncode | CommonSource/Utilities/ColorspaceUtilities.cpp:587-684 | for any two transition bases, decoding the colour of the transition from the first base gives back the second: the basespace map inverts the colorspace map |
| ColorspaceTables.ColoursAreNotGaps | CommonSource/Utilities/ColorspaceUtilities.cpp:636-684 | no entry of the colorspace map is a gap |
| ColorspaceTables.ColorspaceMapSymmetric | CommonSource/Utilities/ColorspaceUtilities.cpp:636-684 | between canonical bases, a transition and its reverse have the same colour |
| ColorspaceTables.AmbiguitySetMeaning | CommonSource/Utilities/ColorspaceUtilities.cpp:549-584 | a sorted pair is in the ambiguity set exactly when the two characters are equal canonical bases or an ambiguity code paired with one of the bases it stands for |
| ColorspaceAlignment.GapCountWithoutGaps | CommonSource/Utilities/ColorspaceUtilities.cpp:741-761 | a stretch of reference without gaps has no observed gaps |
| ColorspaceAlignment.ObservedGaps.constructor | CommonSource/Utilities/ColorspaceUtilities.cpp:14-17 | the gap-count array starts empty |
| ColorspaceAlignment.ObservedGaps.Update | CommonSource/Utilities/ColorspaceUtilities.cpp:741-761 | the array is reallocated to the length plus the extension only when too small; afterwards entry i counts the reference gaps before position i; the result says whether either sequence holds a gap |
| ColorspaceAlignment.GenomeWindow | CommonSource/Utilities/ColorspaceUtilities.cpp:39 | the basespace reference from the alignment's reference begin to the end of its reference sequence |
| ColorspaceAlignment.NothingToPatch | CommonSource/Utilities/ColorspaceUtilities.cpp:45 | an alignment without gaps is its own patched alignment |
| ColorspaceAlignment.FindIdenticalRegions | CommonSource/Utilities/ColorspaceUtilities.cpp:458-472 | the regions are the maximal runs where reference and query agree, in order, inside the alignment, and they cover every agreeing position |
| ColorspaceAlignment.OneRegionWhenIdentical | CommonSource/Utilities/ColorspaceUtilities.cpp:458-472 | identical reference and query give one region spanning the whole alignment |
| ColorspaceAlignment.LaterRegionStartsLater | CommonSource/Utilities/ColorspaceUtilities.cpp:95-101 | every region but the first starts after position 0, so the mismatch run before it ends at a valid position |
| ColorspaceAlignment.SecondRegionFollowsFirst | CommonSource/Utilities/ColorspaceUtilities.cpp:95-101 | with two or more regions the first ends before the alignment does |
| ColorspaceAlignment.RemappedQualities | CommonSource/Utilities/ColorspaceUtilities.cpp:147-167 | the basespace qualities are one longer than the colour qualities, keep the first and last, and each inner one is the lower, as signed bytes, of the two colour qualities beside it |
| ColorspaceAlignment.RemappedQuality | CommonSource/Utilities/ColorspaceUtilities.cpp:157-167 | one basespace quality: the end values at the ends, the signed-byte lower neighbour inside |
| ColorspaceAlignment.LowerQuality | CommonSource/Utilities/ColorspaceUtilities.cpp:163 | the lower of two qualities compared as signed `char` bytes, one of the two, the second on a tie |
| ColorspaceAlignment.SignedQuality | CommonSource/Utilities/ColorspaceUtilities.cpp:163 | a quality character read as a signed byte: in [-128, 128), itself below 0x80, 256 less from 0x80 to 0xFF |
| ColorspaceAlignment.LowerQualityAscii | CommonSource/Utilities/ColorspaceUtilities.cpp:163 | between qualities below 0x80 the signed minimum is the lower code point |
| ColorspaceAlignment.HighQualityIsLower | src/CommonSource/Utilities/ColorspaceUtilities.cpp:131 | a quality from 0x80 up is lower than 'A', since it is negative as a signed byte |
| ColorspaceAlignment.RemapQualities | CommonSource/Utilities/ColorspaceUtilities.cpp:147-167 | the loop fills the buffer with exactly the remapped qualities |
| ColorspaceAlignment.EndsAdvanced | CommonSource/Utilities/ColorspaceUtilities.cpp:169-172 | the query and reference ends grow by one in their 16- and 32-bit widths, and the query length, when nothing wraps, is the query span plus the extra base |
| ColorspaceTranscoding.Decoded | CommonSource/Utilities/ColorspaceUtilities.cpp:176-199 | one base per colour: the first decoded from the seed, each next from the base before it |
| ColorspaceTranscoding.DecodedAppend | CommonSource/Utilities/ColorspaceUtilities.cpp:188-198 | decoding one more colour appends exactly the base that colour leads to |
| ColorspaceTranscoding.ConvertColorspaceToBasespace | CommonSource/Utilities/ColorspaceUtilities.cpp:176-199 | only the first length-mod-2^16 colours are decoded (the length is an unsigned short, so 2^16 colours give the empty string); it succeeds exactly when every transition of that prefix is in the table and then returns its decoded bases; an unknown transition is a fatal error |
| ColorspaceTranscoding.Encoded | CommonSource/Utilities/ColorspaceUtilities.cpp:202-227 | one colour per pair of neighbouring bases, one fewer than the bases |
| ColorspaceTranscoding.ConvertReadBasespaceToPseudoColorspace | CommonSource/Utilities/ColorspaceUtilities.cpp:202-227 | an empty read is an error; otherwise it succeeds exactly when every simplified transition is in the table, and the read then starts with the encoded colours and reports one fewer than its length |
| ColorspaceTranscoding.ColourPseudoRoundTrip | CommonSource/Utilities/ColorspaceUtilities.cpp:230-290 | the colour-to-pseudo and pseudo-to-colour translations are inverse on colours 0-3 and X, and each is defined exactly on the characters the source accepts |
| ColorspaceTranscoding.ConvertReadColorspaceToPseudoColorspace | CommonSource/Utilities/ColorspaceUtilities.cpp:230-262 | succeeds exactly when every character is a colour 0-3, X, a gap or a dot, and then translates each in place |
| ColorspaceReadExamples.CanonicalReadEncoded | CommonSource/Utilities/ColorspaceUtilities.cpp:202-227 | a read of canonical bases is always encodable, and its i-th colour is the table entry of its i-th transition |
| ColorspaceReadExamples.BasespaceReadCanonical | CommonSource/UnitTests/ColorspaceUtilitiesTest.cpp:244-245 | every base of the unit test's basespace read is canonical |
| ColorspaceReadExamples.BasespaceReadTransitions | CommonSource/UnitTests/ColorspaceUtilitiesTest.cpp:244-247 | each transition of the unit test's basespace read has the colour the test expects at that position |
| ColorspaceReadExamples.ConvertReadBasespaceToPseudoColorspaceTestRead | CommonSource/UnitTests/ColorspaceUtilitiesTest.cpp:242-249 | the unit test's basespace read encodes to exactly the expected pseudo-colour string |
| ColorspaceReadExamples.ConvertReadColorspaceToPseudoColorspaceTestRead | CommonSource/UnitTests/ColorspaceUtilitiesTest.cpp:251-258 | every character of the unit test's colour read translates to the expected letter at the same position |
| ColorspaceTranscoding.ConvertReadPseudoColorspaceToColorspace | CommonSource/Utilities/ColorspaceUtilities.cpp:265-290 | succeeds exactly when every character is A, C, G, T, X or N, and then translates each back to its colour in place |
| ColorspaceFinish.AmbiguityMismatches | CommonSource/Utilities/ColorspaceUtilities.cpp:133-140 | at most one mismatch per position, and none exactly when every aligned pair is in the ambiguity set |
| ColorspaceFinish.Finished | CommonSource/Utilities/ColorspaceUtilities.cpp:133-172 | the finished alignment exists exactly when there is a quality to remap; it carries the basespace strings, one more quality than before and the query end moved by one |
| ColorspaceDerivation.WithDefault | CommonSource/Utilities/ColorspaceUtilities.cpp:342 | indexing a map inserts the key with a '\0' value when absent, and no lookup changes |
| ColorspaceDerivation.LookupThroughDefaults | CommonSource/Utilities/ColorspaceUtilities.cpp:342 | a table grown only by such default insertions reads the same as the initial table, before and after another insertion |
| ColorspaceDerivation.Transcribed | CommonSource/Utilities/ColorspaceUtilities.cpp:176-199 | the bases a walk through a table gives, missing transitions reading '\0': one per colour, each from the one before |
| ColorspaceDerivation.DecodedThroughDefaults | CommonSource/Utilities/ColorspaceUtilities.cpp:176-199 | decoding through a table grown by default insertions gives the walk through the initial table |
| ColorspaceDerivation.DecodableThroughDefaults | CommonSource/Utilities/ColorspaceUtilities.cpp:176-199 | what the initial table decodes, a table grown from it by default insertions decodes too |
| ColorspaceDerivation.LastCanonical | CommonSource/Utilities/ColorspaceUtilities.cpp:320-336 | the nearest position at or before i whose gap-shifted genome base is canonical, or none when no such position exists |
| ColorspaceDerivation.FirstUsable | CommonSource/Utilities/ColorspaceUtilities.cpp:353-370 | the first position from i whose genome base is canonical and whose preceding colour qualifies, or none when no position qualifies |
| ColorspaceDerivation.TransitionDecodes | CommonSource/Utilities/ColorspaceUtilities.cpp:587-684 | the colour between two canonical bases is canonical and decodes from either base to the other |
| ColorspaceDerivation.ColoursDecodeBothWays | CommonSource/Utilities/ColorspaceUtilities.cpp:587-684 | the colours of a basespace read decode forward and backward through the initial table into the read's bases |
| ColorspaceDerivation.WalkForwardFollowsBases | CommonSource/Utilities/ColorspaceUtilities.cpp:339-347 | the forward walk of DeriveBase from a read's base reaches the read's base at the stop position |
| ColorspaceDerivation.WalkBackwardFollowsBases | CommonSource/Utilities/ColorspaceUtilities.cpp:373-381 | without gaps, the backward walk from a read's base reaches the read's base at the stop position |
| ColorspaceDerivation.TranscribedFollowsBases | CommonSource/Utilities/ColorspaceUtilities.cpp:176-199 | transcribing a read's colours from one of its bases yields the read's following bases |
| ColorspaceDerivation.NoUsableMeansNoCanonical | CommonSource/Utilities/ColorspaceUtilities.cpp:353-370 | for the colours of a real read without gaps, a failed forward search means no later genome base is canonical |
| ColorspaceDerivation.NoCanonicalBefore | CommonSource/Utilities/ColorspaceUtilities.cpp:320-336 | without gaps, a failed backward search means no earlier genome base is canonical |
| ColorspaceDerivation.DerivedBaseRecoversRead | CommonSource/Utilities/ColorspaceUtilities.cpp:293-392 | when the query holds the colours of a read and the genome agrees with it where canonical, a derived base is the read's base, and derivation fails only when the genome has no canonical base at all |
| ColorspaceDerivation.DerivedFromBefore | CommonSource/Utilities/ColorspaceUtilities.cpp:320-347 | the same, for the case that walks forward from an earlier canonical base |
| ColorspaceDerivation.DerivedFromAfter | CommonSource/Utilities/ColorspaceUtilities.cpp:353-391 | the same, for the case that walks back from a later canonical base |
| ColorspaceDerivation.BeginQueryBaseRecoversRead | CommonSource/Utilities/ColorspaceUtilities.cpp:395-455 | under the same conditions the derived first query base is the read's first base, and it is found whenever the genome has a canonical base and the alignment has two positions |
| Colorspace.MatchRegion | CommonSource/Utilities/ColorspaceUtilities.cpp:475-513 | an identity run of n colours gives n + 1 reference bases copied from the gap-shifted genome; the query equals the reference when those genome bases are canonical; the run fails exactly when a genome base is ambiguous and the seed cannot be derived |
| Colorspace.MismatchRegion | CommonSource/Utilities/ColorspaceUtilities.cpp:516-546 | a mismatch run gives reference and query strings of equal length: one base per colour, one more when the run starts the alignment, one fewer when an identity run follows |
| Colorspace.MismatchBases | CommonSource/Utilities/ColorspaceUtilities.cpp:526-545 | the decoded reference and query of a mismatch run have that same length |
| Colorspace.InitialAmbiguityMatchesItself | CommonSource/Utilities/ColorspaceUtilities.cpp:549-584 | every canonical base matches itself in the initial ambiguity set |
| Colorspace.IdenticalBasesDoNotMismatch | CommonSource/Utilities/ColorspaceUtilities.cpp:133-140 | canonical bases aligned against themselves count no mismatch |
| Colorspace.LeftFlank | CommonSource/Utilities/ColorspaceUtilities.cpp:62-68 | the mismatch run before a lone identity run has one base per position before it |
| Colorspace.RightFlank | CommonSource/Utilities/ColorspaceUtilities.cpp:70-76 | the mismatch run after a lone identity run has one base per position after it |
| Colorspace.SingleRegionBases | CommonSource/Utilities/ColorspaceUtilities.cpp:52-91 | with one identity run, the basespace reference and query are one base longer than the colorspace alignment |
| Colorspace.SingleRegionIs | CommonSource/Utilities/ColorspaceUtilities.cpp:78-90 | the one-run result is the left flank, the identity run and the right flank joined in that order |
| Colorspace.StepBases | CommonSource/Utilities/ColorspaceUtilities.cpp:96-113 | the steps before identity run n emit as many bases as there are positions from the first run to run n |
| Colorspace.Step | CommonSource/Utilities/ColorspaceUtilities.cpp:97-112 | one step emits one base per position from the start of run k to the start of run k + 1 |
| Colorspace.StepIs | CommonSource/Utilities/ColorspaceUtilities.cpp:97-112 | a step is identity run k followed by the mismatch run after it |
| Colorspace.ConvertedBases | CommonSource/Utilities/ColorspaceUtilities.cpp:49-127 | the rebuilt reference and query have equal length, one more than the alignment with a single identity run, and with several the span from the first run to the end of the last plus one |
| Colorspace.StepBasesGrow | CommonSource/Utilities/ColorspaceUtilities.cpp:96-113 | one more loop iteration appends exactly its step to what was emitted |
| Colorspace.SeveralRegionsAre | CommonSource/Utilities/ColorspaceUtilities.cpp:93-127 | the several-run result is the steps followed by the last identity run |
| Colorspace.ExactAlignmentConverts | CommonSource/Utilities/ColorspaceUtilities.cpp:32-127 | an alignment that matches a genome of canonical bases exactly forms one identity run and converts to that genome stretch, one base longer, for both reference and query |
| Colorspace.RunEnd | CommonSource/Utilities/ColorspaceUtilities.cpp:695 | the first position after a gap run that is not a gap |
| Colorspace.RunEndIs | CommonSource/Utilities/ColorspaceUtilities.cpp:695 | a non-gap position preceded only by gaps from the start is the run's end |
| Colorspace.RunColours | CommonSource/Utilities/ColorspaceUtilities.cpp:704-712 | a patched run holds the left transition colour, then gap-to-gap colours, then the right transition colour, none of them a gap when the table never yields one |
| Colorspace.PatchedRun | CommonSource/Utilities/ColorspaceUtilities.cpp:698-712 | the patch covers the gap run and its closing colour, one colour per position |
| Colorspace.Overwritten | CommonSource/Utilities/ColorspaceUtilities.cpp:704-712 | writing a run over a string keeps its length |
| Colorspace.OverwrittenIs | CommonSource/Utilities/ColorspaceUtilities.cpp:704-712 | writing a run from a position replaces exactly the slice the run covers |
| Colorspace.GapPatched | CommonSource/Utilities/ColorspaceUtilities.cpp:687-715 | a successful patch returns a position past the gap and inside the string, and a string of the same length |
| Colorspace.GapPatchedMeans | CommonSource/Utilities/ColorspaceUtilities.cpp:687-715 | the patch fails exactly when the left base cannot be derived or the run reaches the end, the derivation failing first; otherwise it returns the run's end, changes nothing outside the run and its closing colour, and leaves no gap inside them when no colour read is a gap |
| Colorspace.GapPatcherPatches | CommonSource/Utilities/ColorspaceUtilities.cpp:687-715 | on a gap of an alignment whose gap counts fit, the patcher used by the scan is GapPatched |
| Colorspace.StepPatched | CommonSource/Utilities/ColorspaceUtilities.cpp:729-730 | one half-step returns a position no earlier and inside the string, and leaves a string without a gap at that position as it is |
| Colorspace.ScanStep | CommonSource/Utilities/ColorspaceUtilities.cpp:729-730 | one iteration keeps both lengths and returns a position no earlier and inside the alignment |
| Colorspace.ScanStepSucceeds | CommonSource/Utilities/ColorspaceUtilities.cpp:729-730 | two successful half-steps make a successful iteration resuming where the query half-step stopped |
| Colorspace.ReferenceHalfFails | CommonSource/Utilities/ColorspaceUtilities.cpp:729 | a failing reference half-step fails the iteration with its failure |
| Colorspace.QueryHalfFails | CommonSource/Utilities/ColorspaceUtilities.cpp:730 | a failing query half-step after a successful reference half-step fails the iteration with its failure |
| Colorspace.ScanFails | CommonSource/Utilities/ColorspaceUtilities.cpp:728-731 | a failing iteration fails the whole scan with that failure |
| Colorspace.PatchedFromUnfolds | CommonSource/Utilities/ColorspaceUtilities.cpp:728-731 | after a successful iteration, the scan's outcome is the scan's outcome one past where the iteration stopped, on the patched pair |
| Colorspace.PatchedToTheEnd | CommonSource/Utilities/ColorspaceUtilities.cpp:728 | a scan past the last position succeeds with the pair unchanged |
| Colorspace.GapFreeNotPatched | CommonSource/Utilities/ColorspaceUtilities.cpp:728-731 | a scan over positions without gaps succeeds and changes nothing |
| Colorspace.RunToEndFails | CommonSource/Utilities/ColorspaceUtilities.cpp:696-729 | a reference gap run reaching the end of the alignment fails the scan that meets it |
| Colorspace.ExactAlignmentFinishes | CommonSource/Utilities/ColorspaceUtilities.cpp:32-173 | an exact alignment over canonical genome bases with qualities, whose identity region decodes, finishes as that genome stretch for both strings with no mismatches |
| Colorspace.InitialColoursNeverGap | CommonSource/Utilities/ColorspaceUtilities.cpp:636-684 | no read of the initial colorspace table, a missing pair included, yields a gap |
| Colorspace.ColorspaceUtilities.constructor | CommonSource/Utilities/ColorspaceUtilities.cpp:14-23 | the tables hold their initial entries and no gap array is allocated yet |
| Colorspace.ColorspaceUtilities.BasespaceAt | CommonSource/Utilities/ColorspaceUtilities.cpp:342 | reading the basespace map returns the initial table's entry or '\0', and inserts the key |
| Colorspace.ColorspaceUtilities.ColourAt | CommonSource/Utilities/ColorspaceUtilities.cpp:706-710 | reading the colorspace map returns the initial table's entry or '\0', and inserts the key |
| Colorspace.ColorspaceUtilities.SearchBack | CommonSource/Utilities/ColorspaceUtilities.cpp:320-336 | the loop finds the nearest earlier canonical genome base, or reports none |
| Colorspace.ColorspaceUtilities.SearchAhead | CommonSource/Utilities/ColorspaceUtilities.cpp:353-370 | the loop finds the first later usable position, or reports none |
| Colorspace.ColorspaceUtilities.WalkAhead | CommonSource/Utilities/ColorspaceUtilities.cpp:339-347 | the forward decoding loop ends on the base the forward walk specifies |
| Colorspace.ColorspaceUtilities.WalkBack | CommonSource/Utilities/ColorspaceUtilities.cpp:373-381 | the backward decoding loop, skipping gap colours, ends on the base the backward walk specifies |
| Colorspace.ColorspaceUtilities.DeriveBase | CommonSource/Utilities/ColorspaceUtilities.cpp:293-392 | the result is the derived base through the initial table; with the derivation lemmas it is the true read base and fails only when the genome has no canonical base |
| Colorspace.ColorspaceUtilities.DeriveBeginQueryBase | CommonSource/Utilities/ColorspaceUtilities.cpp:395-455 | the result is the derived first query base; a one-position alignment whose genome base is ambiguous is an error |
| Colorspace.ColorspaceUtilities.ConvertColorspaceToBasespace | CommonSource/Utilities/ColorspaceUtilities.cpp:176-199 | over the length-mod-2^16 prefix of the colours, decoding through the object's grown table succeeds whenever the initial table decodes, gives the initial table's walk, and fails only fatally; 2^16 colours give the empty string |
| Colorspace.ColorspaceUtilities.GetMatchRegion | CommonSource/Utilities/ColorspaceUtilities.cpp:475-513 | the method returns the identity run's specified bases, and succeeds whenever the seed derives and the run decodes |
| Colorspace.ColorspaceUtilities.FindNonCanonical | CommonSource/Utilities/ColorspaceUtilities.cpp:482-488 | the scan reports exactly whether some genome base from the first to the last position is not canonical |
| Colorspace.ColorspaceUtilities.GetQuerySeed | CommonSource/Utilities/ColorspaceUtilities.cpp:532 | a run at the start with an ambiguous seed takes the derived first query base, otherwise the seed |
| Colorspace.ColorspaceUtilities.DecodeRun | CommonSource/Utilities/ColorspaceUtilities.cpp:528-534 | the decoded run, the seed in front when the run starts the alignment, whenever the initial table decodes it |
| Colorspace.ColorspaceUtilities.GetMismatchRegion | CommonSource/Utilities/ColorspaceUtilities.cpp:516-546 | the method returns the mismatch run's specified bases, and succeeds whenever every lookup it makes succeeds |
| Colorspace.ColorspaceUtilities.PatchColorspaceGap | CommonSource/Utilities/ColorspaceUtilities.cpp:687-715 | fails exactly when the run reaches the end or the left base cannot be derived, then changing nothing; otherwise it rewrites exactly the gap run and its closing colour with transition colours, none a gap, and returns the closing position; the outcome, string and position or failure, is GapPatched of the old string |
| Colorspace.ColorspaceUtilities.FindRunEnd | CommonSource/Utilities/ColorspaceUtilities.cpp:695 | the scan stops at the run's end, or at the length exactly when the run reaches the end |
| Colorspace.ColorspaceUtilities.WriteRun | CommonSource/Utilities/ColorspaceUtilities.cpp:704-712 | the write loop stores the run's transition colours and changes nothing else |
| Colorspace.ColorspaceUtilities.PatchColorspaceGaps | CommonSource/Utilities/ColorspaceUtilities.cpp:718-733 | only gap runs and their closing colours change; after success a reference gap remains only where the original had one right after a query gap, and a query gap only opposite a reference gap; the patched pair on success, and the failure otherwise, are those of PatchedFrom from position 0 over the original pair |
| Colorspace.ColorspaceUtilities.PatchReferenceStep | CommonSource/Utilities/ColorspaceUtilities.cpp:729 | patching a reference run keeps the loop invariant (positions ahead untouched, surviving gaps justified) and its outcome is StepPatched of the old reference |
| Colorspace.ColorspaceUtilities.PatchQueryStep | CommonSource/Utilities/ColorspaceUtilities.cpp:730 | patching a query run keeps the same invariant, moves past the run, and its outcome is StepPatched of the old query |
| Colorspace.ColorspaceUtilities.PatchStep | CommonSource/Utilities/ColorspaceUtilities.cpp:728-731 | one loop iteration keeps the invariant, and its outcome, the patched pair and position or the failure, is ScanStep of the old pair |
| Colorspace.ColorspaceUtilities.GetLeftFlank | CommonSource/Utilities/ColorspaceUtilities.cpp:62-68 | the left mismatch run's specified bases, none when the run starts at 0 |
| Colorspace.ColorspaceUtilities.GetRightFlank | CommonSource/Utilities/ColorspaceUtilities.cpp:70-76 | the right mismatch run's specified bases, none when the run ends the alignment |
| Colorspace.ColorspaceUtilities.ConvertSingleRegion | CommonSource/Utilities/ColorspaceUtilities.cpp:52-91 | the one-run branch returns the specified bases and succeeds whenever the three pieces decode |
| Colorspace.ColorspaceUtilities.GetStep | CommonSource/Utilities/ColorspaceUtilities.cpp:97-112 | one loop iteration returns the specified step |
| Colorspace.ColorspaceUtilities.ConvertSteps | CommonSource/Utilities/ColorspaceUtilities.cpp:96-113 | the loop returns the steps for every identity run but the last |
| Colorspace.ColorspaceUtilities.GetFinalMatch | CommonSource/Utilities/ColorspaceUtilities.cpp:115-120 | the bases of the last identity run |
| Colorspace.ColorspaceUtilities.ConvertSeveralRegions | CommonSource/Utilities/ColorspaceUtilities.cpp:93-127 | the several-run branch returns the specified conversion |
| Colorspace.ColorspaceUtilities.ConvertAlignmentToBasespace | CommonSource/Utilities/ColorspaceUtilities.cpp:32-173 | records each position's preceding reference gaps; a failed gap patch, as PatchedFrom says, is the result; otherwise the patched pair is PatchedFrom's, keeps all but gap runs, and the new reference and query are the conversion of its identity regions; mismatches, qualities and ends are finished; no qualities is an error; an exact alignment over canonical genome bases becomes that genome stretch with no mismatches |
| Colorspace.ColorspaceUtilities.PatchAlignment | CommonSource/Utilities/ColorspaceUtilities.cpp:44-45 | the gap counts are recorded; an alignment without gaps comes back unchanged; the result, patched pair or failure, is PatchedFrom from position 0 |
| Colorspace.ColorspaceUtilities.ConvertPatched | CommonSource/Utilities/ColorspaceUtilities.cpp:47-172 | after patching, the result is the finished conversion of the identity regions; no qualities is an error; a single decodable region succeeds; an exact gap-free alignment becomes its genome stretch with no mismatches |
| Colorspace.ColorspaceUtilities.FinishAlignment | CommonSource/Utilities/ColorspaceUtilities.cpp:133-172 | the method returns the finished alignment |
| Colorspace.ColorspaceUtilities.ConvertRegions | CommonSource/Utilities/ColorspaceUtilities.cpp:47-127 | finds the identity regions and returns their conversion, which succeeds for a single region whose pieces decode |
| Colorspace.ColorspaceUtilities.CountMismatches | CommonSource/Utilities/ColorspaceUtilities.cpp:133-140 | the count is the number of positions whose pair is not in the ambiguity set |
| LegacyColorspaceTables.DecodeInvertsEncode | src/CommonSource/Utilities/ColorspaceUtilities.cpp:279-368 | for a seed of A, C, G, T, a gap or X and a target of A, C, G, T or X, decoding the colour of their transition from the seed gives back the target |
| LegacyColorspaceTables.NColourDecodesToGap | src/CommonSource/Utilities/ColorspaceUtilities.cpp:279-322 | in the legacy basespace map a colour decodes to a gap exactly when it is N |
| LegacyColorspaceTables.BasespaceMapDomain | src/CommonSource/Utilities/ColorspaceUtilities.cpp:279-322 | the legacy basespace map is defined exactly on such a seed paired with A, C, G, T, N or X |
| LegacyColorspace.FillStop | src/CommonSource/Utilities/ColorspaceUtilities.cpp:383-384 | the scan stops at the first position that is not a gap, or at the last position, having passed only gaps |
| LegacyColorspace.FillStopIs | src/CommonSource/Utilities/ColorspaceUtilities.cpp:383-384 | any position meeting that description is where the scan stops |
| LegacyColorspace.Filled | src/CommonSource/Utilities/ColorspaceUtilities.cpp:385-386 | the run from the gap to the stop, inclusive, becomes N and everything else stays |
| LegacyColorspace.FillKeepsChangesAtRuns | src/CommonSource/Utilities/ColorspaceUtilities.cpp:379-398 | filling a run keeps the patch invariant: only gap runs and their closing characters change, each to N, and the positions after the run are untouched |
| LegacyColorspace.FillRun | src/CommonSource/Utilities/ColorspaceUtilities.cpp:381-397 | a half-step keeps the length and returns a position no earlier inside the string; without a gap it changes nothing; at a gap it sets exactly the positions from the gap to the returned one to N |
| LegacyColorspace.LegacyPatchedFrom | src/CommonSource/Utilities/ColorspaceUtilities.cpp:373-399 | the scan from a position keeps both lengths |
| LegacyColorspace.FilledFromUnfolds | src/CommonSource/Utilities/ColorspaceUtilities.cpp:379-398 | the scan from a position inside the alignment is the scan, one past where its two half-steps stopped, of the filled pair |
| LegacyColorspace.FilledToTheEnd | src/CommonSource/Utilities/ColorspaceUtilities.cpp:379 | a scan past the last position leaves the pair as it is |
| LegacyColorspace.GapFreeNotFilled | src/CommonSource/Utilities/ColorspaceUtilities.cpp:379-398 | a scan over positions without gaps changes nothing |
| LegacyColorspace.FillCoversClosingColour | src/CommonSource/Utilities/ColorspaceUtilities.cpp:383-386 | the reference "A-C" opposite "AGC" becomes "ANN": the fill runs through the base that ends the gap run |
| LegacyColorspace.LegacyStep | src/CommonSource/Utilities/ColorspaceUtilities.cpp:60-88 | one step emits one base per position from run k to run k + 1, starting with the genome bases of run k for both strings, and fails exactly when the mismatch colours do not decode from the genome base before them |
| LegacyColorspace.MismatchBases | src/CommonSource/Utilities/ColorspaceUtilities.cpp:66-74 | both colour runs decode from the same genome base, fatally failing when either cannot, and the last decoded base of each is dropped |
| LegacyColorspace.LegacyStepBases | src/CommonSource/Utilities/ColorspaceUtilities.cpp:60-88 | the steps before run n emit one base per position from the first run to run n, and a failure is fatal |
| LegacyColorspace.LegacyStepBasesNext | src/CommonSource/Utilities/ColorspaceUtilities.cpp:60-88 | one more iteration appends its step, or stops with its failure |
| LegacyColorspace.LegacyStepBasesFailureStays | src/CommonSource/Utilities/ColorspaceUtilities.cpp:60-88 | once a step fails, later iterations keep that failure |
| LegacyColorspace.LegacyConvertedBases | src/CommonSource/Utilities/ColorspaceUtilities.cpp:48-99 | reference and query of equal length, spanning the first run to the end of the last plus one with several runs; no identity run at all is undefined behaviour |
| LegacyColorspace.SingleRegionCopiesGenome | src/CommonSource/Utilities/ColorspaceUtilities.cpp:48-51 | a single identity run copies its genome bases, one more than the run, into both reference and query |
| LegacyColorspace.HoldsRunsJoin | src/CommonSource/Utilities/ColorspaceUtilities.cpp:81-87 | appending a step that starts with run n's genome bases extends the emitted text to hold every run up to n |
| LegacyColorspace.StepHoldsRun | src/CommonSource/Utilities/ColorspaceUtilities.cpp:81-87 | the same for the reference and query strings together |
| LegacyColorspace.StepBasesHoldRuns | src/CommonSource/Utilities/ColorspaceUtilities.cpp:60-88 | whatever the loop emitted holds each identity run's genome bases at that run's offset |
| LegacyColorspace.LegacyStepBasesParts | src/CommonSource/Utilities/ColorspaceUtilities.cpp:60-88 | a successful emission is the previous emission followed by a step of the expected length that starts with the run's genome bases |
| LegacyColorspace.RegionsStartInOrder | src/CommonSource/Utilities/ColorspaceUtilities.cpp:60-64 | identity regions start in order and an earlier one ends before a later one starts |
| LegacyColorspace.ByteMismatches | src/CommonSource/Utilities/ColorspaceUtilities.cpp:103-108 | at most one mismatch per position, and none exactly when the two strings agree character by character |
| LegacyColorspace.LegacyFinished | src/CommonSource/Utilities/ColorspaceUtilities.cpp:101-141 | the finished alignment exists exactly when there is a quality to remap; it carries the basespace strings, at most one mismatch per base, one more quality and the query end moved by one |
| LegacyColorspace.ExactLegacyAlignmentConverts | src/CommonSource/Utilities/ColorspaceUtilities.cpp:31-99 | an alignment whose reference and query agree and hold no gap converts to the genome stretch one base longer, for both strings |
| LegacyColorspace.LegacyColorspaceUtilities.constructor | src/CommonSource/Utilities/ColorspaceUtilities.cpp:14-22 | the legacy tables hold their initial entries and no gap array is allocated yet |
| LegacyColorspace.LegacyColorspaceUtilities.ConvertColorspaceToBasespace | src/CommonSource/Utilities/ColorspaceUtilities.cpp:145-168 | over the length-mod-2^16 prefix of the colours, succeeds exactly when every transition is in the legacy table and then returns the decoded bases; an unknown transition is fatal; 2^16 colours give the empty string |
| LegacyColorspace.LegacyColorspaceUtilities.ConvertReadBasespaceToPseudoColorspace | src/CommonSource/Utilities/ColorspaceUtilities.cpp:171-196 | an empty read is an error; otherwise it succeeds exactly when every transition of the legacy-simplified read is in the legacy table, and the read then starts with the encoded colours and reports one fewer than its length |
| LegacyColorspace.LegacyColorspaceUtilities.FillGapRun | src/CommonSource/Utilities/ColorspaceUtilities.cpp:382-397 | the scan stops where FillStop says and the run up to it becomes N |
| LegacyColorspace.LegacyColorspaceUtilities.PatchColorspaceGaps | src/CommonSource/Utilities/ColorspaceUtilities.cpp:373-399 | only gap runs and their closing characters change, each to N; a surviving reference gap was one right after a query gap, a surviving query gap was opposite a reference gap; the patched pair is LegacyPatchedFrom from position 0 over the original pair |
| LegacyColorspace.LegacyColorspaceUtilities.PatchReferenceRun | src/CommonSource/Utilities/ColorspaceUtilities.cpp:381-388 | filling a reference run keeps the loop invariant and moves to the run's last position; the new reference and position are FillRun of the old reference |
| LegacyColorspace.LegacyColorspaceUtilities.PatchQueryRun | src/CommonSource/Utilities/ColorspaceUtilities.cpp:390-397 | filling a query run keeps the loop invariant and moves past the run; the new query and position are FillRun of the old query |
| LegacyColorspace.LegacyColorspaceUtilities.GetStep | src/CommonSource/Utilities/ColorspaceUtilities.cpp:60-88 | one loop iteration returns the specified step |
| LegacyColorspace.LegacyColorspaceUtilities.DecodeMismatchRun | src/CommonSource/Utilities/ColorspaceUtilities.cpp:66-74 | returns the specified decoded mismatch run |
| LegacyColorspace.LegacyColorspaceUtilities.ConvertSteps | src/CommonSource/Utilities/ColorspaceUtilities.cpp:56-88 | the loop returns the steps for every identity run but the last |
| LegacyColorspace.LegacyColorspaceUtilities.ConvertIdentityRegions | src/CommonSource/Utilities/ColorspaceUtilities.cpp:47-99 | returns the specified conversion of the identity regions |
| LegacyColorspace.LegacyColorspaceUtilities.CountMismatches | src/CommonSource/Utilities/ColorspaceUtilities.cpp:103-108 | the count is the number of positions where the strings differ |
| LegacyColorspace.LegacyColorspaceUtilities.FinishAlignment | src/CommonSource/Utilities/ColorspaceUtilities.cpp:101-141 | returns the finished alignment |
| LegacyColorspace.LegacyColorspaceUtilities.ConvertAlignmentToBasespace | src/CommonSource/Utilities/ColorspaceUtilities.cpp:31-142 | records the reference gaps; patches gap runs to N, the patched pair being LegacyPatchedFrom's; rebuilds reference and query from the identity regions, counts byte mismatches, remaps qualities and moves the ends on; no qualities is an error; an exact gap-free alignment becomes the genome stretch with no mismatches |
| LegacyColorspace.LegacyColorspaceUtilities.PatchAlignment | src/CommonSource/Utilities/ColorspaceUtilities.cpp:38-41 | the gap counts are recorded; an alignment without gaps comes back unchanged; the patched pair changes only to N and is LegacyPatchedFrom from position 0 |
| LegacyColorspace.LegacyColorspaceUtilities.ConvertRegions | src/CommonSource/Utilities/ColorspaceUtilities.cpp:43-99 | finds the identity regions and returns their specified conversion |
| JumpRecords.HeaderLayoutConstants | MosaikJump/JumpCreator.cpp:66-70 | signature, hash size, date, reference count and reserved space end exactly at the reference-sequence index offset 50, and a five-byte key spans 2^40 values |
| JumpRecords.DescIsSwappedAsc | MosaikJump/JumpCreator.h:86-98 | the descending order is the ascending order with its arguments swapped |
| JumpRecords.AscIsStrictWeakOrder | MosaikJump/JumpCreator.h:86-91 | the ascending order is irreflexive, asymmetric and transitive, orders by hash then position, and ties exactly the records of equal hash and position, as std::sort requires |
| JumpRecords.RecordBytes | MosaikJump/JumpCreator.h:45-48 | a serialized record is twelve bytes |
| JumpRecords.Deserialize | MosaikJump/JumpCreator.h:36-42 | a read succeeds exactly when a whole record remains, and the record takes the owner it is read for |
| JumpRecords.RecordRoundTrip | MosaikJump/JumpCreator.h:36-48 | reading back a serialized record gives its hash and position, whatever follows it |
| JumpRecords.FileBytes | MosaikJump/JumpCreator.cpp:336-337 | a temporary file is twelve bytes per record |
| JumpRecords.Records | MosaikJump/JumpCreator.cpp:143-147 | reading a file record by record yields one record per whole twelve bytes, each what a read at its offset gives |
| JumpRecords.DeserializeAfterLast | MosaikJump/JumpCreator.h:36-42 | reading past the last whole record fails |
| JumpRecords.FileRecordAt | MosaikJump/JumpCreator.h:36-48 | the record at index i of a written file reads back as the i-th record written |
| JumpRecords.SortedWithOwner | MosaikJump/JumpCreator.cpp:333 | tagging records with an owner keeps them sorted |
| JumpRecords.FileRoundTrip | MosaikJump/JumpCreator.cpp:336-337 | reading back a written temporary file gives the records written, tagged with the file's owner |
| JumpRecords.Insert | MosaikJump/JumpCreator.cpp:333 | inserting adds exactly one copy of the record |
| JumpRecords.InsertSorted | MosaikJump/JumpCreator.cpp:333 | inserting into a sorted sequence keeps it sorted |
| JumpRecords.SortAsc | MosaikJump/JumpCreator.cpp:333 | the ascending sort is a sorted permutation of its input |
| JumpRecords.Reversed | MosaikJump/JumpCreator.cpp:149 | reversal is a permutation that mirrors positions |
| JumpRecords.SortDesc | MosaikJump/JumpCreator.cpp:149 | the descending sort is a permutation sorted the other way round |
| JumpRecords.TranslationTable | MosaikJump/JumpCreator.cpp:220 | the translation rejects exactly E, F, I, J, L, O, P, Q, U and Z, maps A, C, G and T to 0-3, and maps every ambiguity code to some 2-bit value |
| JumpRecords.CanonicalCodesDistinct | MosaikJump/JumpCreator.cpp:220 | A, C, G and T translate to four different values |
| JumpRecords.HashKeyDefined | MosaikJump/JumpCreator.cpp:216-245 | a key exists exactly for fragments of translatable letters, and it fits in two bits per base |
| JumpRecords.HashKeyInjective | MosaikJump/JumpCreator.cpp:228-244 | two fragments of the same length with the same key translate base by base to the same values |
| JumpRecords.CanonicalKeysDistinct | MosaikJump/JumpCreator.cpp:216-245 | fragments of A, C, G and T always hash, and share a key exactly when they are equal |
| JumpRecords.CreateHash | MosaikJump/JumpCreator.cpp:216-245 | more than 32 bases is fatal; otherwise the loop's 64-bit key is the specified key, and its failure the specified failure |
| JumpRecords.AppendBase | MosaikJump/JumpCreator.cpp:230-243 | one iteration extends the key of the prefix by the next base's two bits, staying below 4^(i+1) |
| JumpRecords.KeyStep | MosaikJump/JumpCreator.cpp:230-243 | the key of a one-longer prefix: undefined for a letter outside A-Z, fatal for an untranslatable one, else the old key shifted two bits plus the code |
| JumpRecords.PowersOfFour | MosaikJump/JumpCreator.cpp:222-225 | a key of up to 32 bases fits in 64 bits |
| JumpRecords.FailureStaysKey | MosaikJump/JumpCreator.cpp:234-240 | once a prefix fails to hash, every longer prefix fails the same way |
| JumpRecords.WindowPositionsSound | MosaikJump/JumpCreator.cpp:256-272 | every recorded position lies before the scan point, its window holds no J, X or N, and its hash is the window's key |
| JumpRecords.WindowPositionsIncrease | MosaikJump/JumpCreator.cpp:256-272 | positions are recorded in strictly increasing order |
| JumpRecords.WindowPositionsComplete | MosaikJump/JumpCreator.cpp:256-272 | every scanned window without J, X or N is recorded |
| JumpRecords.WindowFailureStays | MosaikJump/JumpCreator.cpp:271 | a window whose hash fails ends the scan with that failure |
| JumpRecords.WindowPositionsCount | MosaikJump/JumpCreator.cpp:256-272 | at most one record per scanned window |
| JumpCreation.SortingCapacity | MosaikJump/JumpCreator.cpp:39-42 | the sorting buffer holds two gibibytes' worth of 16-byte hash positions |
| JumpCreation.SortedFile | MosaikJump/JumpCreator.cpp:332-337 | a flushed temporary file is twelve bytes per buffered position |
| JumpCreation.FullChunks | MosaikJump/JumpCreator.cpp:275 | the files flushed while the buffer filled up, one per full buffer |
| JumpCreation.ChunkFiles | MosaikJump/JumpCreator.cpp:275-278 | a reference leaves one file per full buffer plus the final flush |
| JumpCreation.FullChunksGrow | MosaikJump/JumpCreator.cpp:275 | later positions do not change the files already flushed |
| JumpCreation.FullChunksNext | MosaikJump/JumpCreator.cpp:275 | filling the buffer once more flushes exactly the next full chunk, sorted |
| JumpCreation.ChunkFilesEnd | MosaikJump/JumpCreator.cpp:278 | the final flush writes the positions left after the last full chunk |
| JumpCreation.SortedFileSorted | MosaikJump/JumpCreator.cpp:333-337 | a flushed file reads back in ascending order |
| JumpCreation.ChunkFilesMergeable | MosaikJump/JumpCreator.cpp:119-147 | a reference of fewer than 2^32 positions leaves at most 32 files, each reading back sorted, so the merge can tag every file with a one-byte owner |
| JumpCreation.ReferenceHashes | MosaikJump/JumpCreator.cpp:248-279 | hashing a reference succeeds only when the window count does not wrap, and gives fewer than 2^32 positions |
| JumpCreation.AllHashedAppend | MosaikJump/JumpCreator.cpp:304-309 | hashing one more reference extends the hashed ones |
| JumpCreation.AllHashedMergeable | MosaikJump/JumpCreator.cpp:108-147 | every hashed reference leaves at most 256 files, each reading back sorted |
| JumpCreation.ScanSkip | MosaikJump/JumpCreator.cpp:258-267 | a window holding J, X or N adds no position |
| JumpCreation.ScanStep | MosaikJump/JumpCreator.cpp:269-272 | any other window adds its position with its key, or ends the scan with its key's failure |
| JumpCreation.Advance | MosaikJump/JumpCreator.cpp:155-186 | one merge iteration keeps the merge invariant, closes the open group exactly when the next hash differs, and strictly shrinks the records still to take |
| JumpCreation.FileRecords | MosaikJump/JumpCreator.cpp:142-147 | each file's records, tagged with the file's index as owner |
| JumpCreation.JumpCreator.constructor | MosaikJump/JumpCreator.cpp:14-43 | a 4096-byte buffer, the position limit on exactly when a threshold is given, and no positions, files or output yet |
| JumpCreation.JumpCreator.CheckBufferSize | MosaikJump/JumpCreator.h:127-129 | the buffer grows, zero-filled, to the request when shorter and otherwise stays |
| JumpCreation.JumpCreator.Put | MosaikJump/JumpCreator.cpp:375-386 | copying bytes into the buffer replaces exactly that slice |
| JumpCreation.JumpCreator.Write | MosaikJump/JumpCreator.cpp:389 | writing puts the bytes at the file position and moves it past them |
| JumpCreation.JumpCreator.SerializeHashPositions | MosaikJump/JumpCreator.cpp:315-344 | the current reference gains one file holding the buffered positions sorted, and the buffer empties |
| JumpCreation.JumpCreator.SkipHash | MosaikJump/JumpCreator.cpp:258-265 | the loop reports whether the window holds J, X or N |
| JumpCreation.JumpCreator.PushHashPosition | MosaikJump/JumpCreator.cpp:272-275 | after the push the buffer holds the positions since the last full chunk and the files hold every full chunk |
| JumpCreation.JumpCreator.FlushLast | MosaikJump/JumpCreator.cpp:278 | after the final flush the reference's files are exactly its chunk files |
| JumpCreation.JumpCreator.ScanWindow | MosaikJump/JumpCreator.cpp:256-276 | one window of the scan advances the specified positions and keeps the buffer and files in step with them |
| JumpCreation.JumpCreator.HashReferenceSequence | MosaikJump/JumpCreator.cpp:248-279 | a failure is the specified scan's failure; on success the reference's files are the chunk files of its specified positions |
| JumpCreation.JumpCreator.HashReferenceSequences | MosaikJump/JumpCreator.cpp:282-311 | the reference count is recorded in 32 bits; on success every reference's files are those of its positions, otherwise some reference failed to hash with that failure |
| JumpCreation.JumpCreator.PutPositions | MosaikJump/JumpCreator.cpp:384-387 | the loop copies the first count shuffled positions after the head |
| JumpCreation.JumpCreator.PutHead | MosaikJump/JumpCreator.cpp:375-379 | the buffer starts with the hash as eight little-endian bytes and the count as four |
| JumpCreation.JumpCreator.StoreEntry | MosaikJump/JumpCreator.cpp:362-389 | the shuffle keeps the group's size, the buffer starts with the group's entry, and that entry is written at the file position |
| JumpCreation.JumpCreator.StoreHash | MosaikJump/JumpCreator.cpp:347-390 | stores the group's entry exactly when it fits; an empty group is the fatal error; a failure writes nothing |
| JumpCreation.JumpCreator.CloseGroup | MosaikJump/JumpCreator.cpp:171-174 | closing a group stores it after the groups already written and counts it in 32 bits |
| JumpCreation.JumpCreator.MergeReference | MosaikJump/JumpCreator.cpp:119-190 | with no records the merge ends in the empty-hash fatal error; on success the records are split into groups of equal hash, in ascending order, exactly the records of the files, counted and written in order |
| JumpCreation.JumpCreator.MergeLoop | MosaikJump/JumpCreator.cpp:155-186 | the loop ends with no record left to read and every closed group written |
| JumpCreation.JumpCreator.MergeRecords | MosaikJump/JumpCreator.cpp:138-190 | the same, for the records of the files as read |
| JumpCreation.JumpCreator.Seek | MosaikJump/JumpCreator.cpp:202 | moving the file position changes no byte |
| JumpCreation.JumpCreator.WriteHeader | MosaikJump/JumpCreator.cpp:66-85 | the file starts with the specified header |
| JumpCreation.JumpCreator.WriteIndexEntry | MosaikJump/JumpCreator.cpp:207-211 | one index entry is written as its twenty bytes |
| JumpCreation.JumpCreator.AllAssembledAppend | MosaikJump/JumpCreator.cpp:108-194 | assembling one more reference extends the assembled ones |
| JumpCreation.JumpCreator.AssembleReference | MosaikJump/JumpCreator.cpp:110-193 | a failure is the fatal empty-hash error for no records or undefined otherwise; on success the reference's groups are written from the current position and its index entry records the begin and end offsets and the group count |
| JumpCreation.JumpCreator.AssembleReferences | MosaikJump/JumpCreator.cpp:108-194 | every reference is assembled in turn, its piece laid right after the previous one |
| JumpCreation.JumpCreator.WriteIndex | MosaikJump/JumpCreator.cpp:202-212 | the index is written as twenty bytes per reference |
| JumpCreation.JumpCreator.BuildJumpDatabase | MosaikJump/JumpCreator.cpp:60-213 | on success the file is the header, the assembled pieces from the entries' start, and the index at offset 50 describing each piece |
| JumpCreation.JumpCreator.CreateJumpDatabase | MosaikJump/JumpMain.cpp:132-139 | hashing then building: a failure comes from a reference that did not hash or did not assemble; on success the database holds every reference's hashes |
| JumpIndex.HeaderBytes | MosaikJump/JumpCreator.cpp:66-85 | the header is twenty bytes: signature, hash size, date and reference count |
| JumpIndex.HeaderReadBack | MosaikJump/JumpCreator.cpp:66-85 | the header reads back as the signature, the hash size, the date and the reference count |
| JumpIndex.EntriesStart | MosaikJump/JumpCreator.cpp:87-89 | the hash entries start after the header, at offset 50 plus twenty bytes per reference when the skip does not wrap |
| JumpIndex.IndexEntryBytes | MosaikJump/JumpCreator.cpp:209-211 | an index entry is twenty bytes |
| JumpIndex.IndexEntryReadBack | MosaikJump/JumpCreator.cpp:207-211 | an index entry reads back as its begin offset, its length and its hash count, offsets modulo 2^64 |
| JumpIndex.IndexBytes | MosaikJump/JumpCreator.cpp:206-212 | the index is twenty bytes per reference |
| JumpIndex.IndexBytesAt | MosaikJump/JumpCreator.cpp:206-212 | reference k's entry sits at bytes 20k to 20k + 20 of the index |
| JumpIndex.IndexBytesAppend | MosaikJump/JumpCreator.cpp:206-212 | one more reference appends its entry to the index |
| JumpIndex.LaidAppend | MosaikJump/JumpCreator.cpp:108-194 | a piece whose offsets follow the last one's keeps every index entry pointing at its own piece |
| JumpIndex.PlacedAfterAppend | MosaikJump/JumpCreator.cpp:108-194 | after the append each entry still begins after the pieces before it and spans its own piece |
| JumpIndex.DatabaseHeader | MosaikJump/JumpCreator.cpp:66-85 | the finished database starts with the header's fields |
| JumpIndex.DatabaseIndexBytes | MosaikJump/JumpCreator.cpp:202-212 | reference k's index entry sits at offset 50 + 20k of the finished database |
| JumpIndex.DatabaseIndex | MosaikJump/JumpCreator.cpp:202-212 | that entry reads back as the reference's begin offset, length and hash count |
| JumpIndex.DatabaseBody | MosaikJump/JumpCreator.cpp:108-194 | the entries written after the index survive the later index write |
| JumpIndex.DatabaseEntries | MosaikJump/JumpCreator.cpp:108-194 | each reference's piece lies in the database between its begin and end offsets |
| JumpIndex.DatabaseReadsBack | MosaikJump/JumpCreator.cpp:60-213 | in the finished database, each reference's index entry reads back as its begin offset, its length and its count, and the bytes at that offset are the reference's piece |
| JumpDatabase.WriteAtConsecutive | MosaikJump/JumpCreator.cpp:209-211 | two writes one after the other at the file position leave the file as one write of both byte strings |
| JumpDatabase.WriteAtEnd | MosaikJump/JumpCreator.cpp:389 | writing at the end of the output file appends the bytes |
| JumpDatabase.WriteAtReadBack | MosaikJump/JumpCreator.cpp:202-212 | every slice of a written range reads back as the corresponding slice of the written bytes |
| JumpDatabase.WriteAtKeeps | MosaikJump/JumpCreator.cpp:87-89 | bytes outside a written range, including the skipped header space, are left as they were |
| JumpDatabase.CappedCount | MosaikJump/JumpCreator.cpp:359-360 | the stored count never exceeds the group size, never exceeds the limit when limiting, and is the whole group when the limit is off or not exceeded |
| JumpDatabase.PositionBytes | MosaikJump/JumpCreator.cpp:384-387 | the positions take four bytes each |
| JumpDatabase.StoredEntry | MosaikJump/JumpCreator.cpp:369-389 | an entry is (count + 1) * 4 + 8 bytes: hash, count, positions |
| JumpDatabase.EntriesAppend | MosaikJump/JumpCreator.cpp:171-172 | storing one more group appends exactly that group's entry to what was stored |
| JumpDatabase.EntriesNonEmpty | MosaikJump/JumpCreator.cpp:188-190 | a reference with at least one hash group writes a non-empty entry region |
| JumpDatabase.GroupEntryReadBack | MosaikJump/JumpCreator.cpp:347-390 | a stored group reads back as the group's hash, the capped count and the positions of the first count elements of the shuffled group, which are drawn from the group |
| JumpDatabase.FlattenAppend | MosaikJump/JumpCreator.cpp:171-174 | the closed groups followed by a new one flatten to the old records followed by the new group |
| JumpDatabase.HashGroupsAppend | MosaikJump/JumpCreator.cpp:168-175 | closing a same-hash group whose hash is above the last group's keeps the groups one per hash in ascending order |
| JumpDatabase.UnreadAdvance | MosaikJump/JumpCreator.cpp:180-182 | reading one record from a temporary file removes exactly that record from the unread records |
| JumpDatabase.InRow | MosaikJump/JumpCreator.cpp:143-147 | a record waiting in the top row is the last record read from its owner's file, and that file is live |
| JumpDatabase.EmptyRow | MosaikJump/JumpCreator.cpp:158 | an empty top row means every temporary file is exhausted |
| JumpDatabase.NothingUnread | MosaikJump/JumpCreator.cpp:158 | when no file is live nothing is left to read |
| JumpDatabase.RowAdvance | MosaikJump/JumpCreator.cpp:180-182 | replacing a file's waiting record by its next record swaps exactly those two records in the top row |
| JumpDatabase.RowRetire | MosaikJump/JumpCreator.cpp:182 | a file whose read fails loses exactly its waiting record from the top row |
| JumpDatabase.OpenedStep | MosaikJump/JumpCreator.cpp:143-147 | reading the first record of the next non-empty file adds it to the top row and keeps the account of read and unread records |
| JumpDatabase.OpenTopRow | MosaikJump/JumpCreator.cpp:138-149 | the top row holds one record per non-empty file, sorted by SortHashPositionDesc, and together with the unread records it is every record of every file |
| JumpDatabase.AdvanceStep | MosaikJump/JumpCreator.cpp:178-183 | taking the smallest record and reading the next one from its file keeps every non-exhausted file live and accounts for every record once |
| JumpDatabase.RetireStep | MosaikJump/JumpCreator.cpp:178-183 | taking the smallest record from an exhausted file retires that file and leaves the rest of the top row as the waiting records |
| JumpDatabase.LastIsLeast | MosaikJump/JumpCreator.cpp:159 | the back of a top row sorted by SortHashPositionDesc is not after any other waiting record |
| JumpDatabase.Resorted | MosaikJump/JumpCreator.cpp:185 | re-sorting the top row restores the merge state |
| JumpDatabase.AdvanceRefills | MosaikJump/JumpCreator.cpp:180-182 | when the owner has records left, the refilled row takes its next record and every waiting record is at or after the one taken |
| JumpDatabase.RetireRefills | MosaikJump/JumpCreator.cpp:182 | when the owner is exhausted, the row is refilled with nothing and the owner retires |
| JumpDatabase.RefilledSorts | MosaikJump/JumpCreator.cpp:185 | sorting a refilled row gives the merge state, the record account, and a row none of whose records comes before the one taken |
| JumpDatabase.ReadNext | MosaikJump/JumpCreator.cpp:159-185 | one step of the merge returns a top row in merge state that accounts for every record except the one taken, and none of whose records comes before it |
| JumpDatabase.SortedAppend | MosaikJump/JumpCreator.cpp:159-174 | appending a record not before the last keeps the taken records in SortHashPositionAsc order |
| JumpDatabase.MergeStart | MosaikJump/JumpCreator.cpp:138-155 | the merge begins with no group closed and none open |
| JumpDatabase.TakenAccount | MosaikJump/JumpCreator.cpp:159-160 | moving the taken record from the waiting records to the taken records keeps the total |
| JumpDatabase.OrderJoin | MosaikJump/JumpCreator.cpp:168-169 | a record with the open group's hash joins it and the taken records stay sorted |
| JumpDatabase.OrderClose | MosaikJump/JumpCreator.cpp:170-174 | a record with a new hash closes the open group and opens a new one, keeping the taken records sorted |
| JumpDatabase.MergeStep | MosaikJump/JumpCreator.cpp:155-186 | one loop iteration either extends the open group or closes it, and keeps the merge invariant |
| JumpDatabase.OpenMeansRecords | MosaikJump/JumpCreator.cpp:188-190 | a group is open only if the files held at least one record |
| JumpDatabase.MergeEnd | MosaikJump/JumpCreator.cpp:155-190 | when the top row is empty the open group is empty exactly when no file held a record, and otherwise the closed groups plus the open one hold every record once, one group per hash, in ascending order |
| JumpQuery.Region | src/CommonSource/DataStructures/JumpDnaHash.cpp:207-212 | a hash region starts at the stored position and at the query position and spans the hash size on both sides, with 32-bit wrap-around |
| JumpQuery.RegionsAppend | src/CommonSource/DataStructures/JumpDnaHash.cpp:203-213 | one more position inserts exactly one more region after the others |
| JumpQuery.Capped | src/CommonSource/DataStructures/JumpDnaHash.cpp:197-200 | the positions read never exceed the count or the limit, and fewer are read exactly when limiting is on and the count is above the limit |
| JumpQuery.OccupancyOf | src/CommonSource/DataStructures/JumpDnaHash.cpp:196-200 | the occupancy is the fraction of positions kept, at most one, and exactly one when nothing is trimmed |
| JumpQuery.KeyOffsetExact | src/CommonSource/DataStructures/JumpDnaHash.cpp:131 | without 64-bit overflow a key's offset is the key times the five-byte key length |
| JumpQuery.StoredOffset | src/CommonSource/DataStructures/JumpDnaHash.cpp:167-174 | the key table yields a five-byte offset; in memory it is defined exactly when the key lies inside the table, and a disk read at or past the end leaves the offset at 0 |
| JumpQuery.PositionsAt | src/CommonSource/DataStructures/JumpDnaHash.cpp:202-206 | reading n positions returns n positions, or an undefined read past the end |
| JumpQuery.PositionsAtStaysErr | src/CommonSource/DataStructures/JumpDnaHash.cpp:203-205 | once a read runs past the end, reading more positions gives the same failure |
| JumpQuery.EntrySize | src/CommonSource/DataStructures/JumpDnaHash.cpp:223 | the entry size is four bytes per position when the unsigned product does not wrap |
| JumpQuery.PositionBytes | MosaikJump/JumpCreator.cpp:384-387 | the positions take four bytes each |
| JumpQuery.PositionBytesAt | MosaikJump/JumpCreator.cpp:385 | the i-th four bytes hold the i-th position in little-endian order |
| JumpQuery.PositionBytesStores | MosaikJump/JumpCreator.cpp:384-387 | the written positions are stored at the start of their bytes |
| JumpQuery.PositionBytesRoundTrip | src/CommonSource/DataStructures/JumpDnaHash.cpp:202-206 | reading back the bytes the creator wrote gives the same positions |
| JumpQuery.ReadBackAll | src/CommonSource/DataStructures/JumpDnaHash.cpp:241-243 | any buffer storing the positions reads back as those positions |
| JumpQuery.PositionsAtReadBack | src/CommonSource/DataStructures/JumpDnaHash.cpp:202-206 | reading a prefix of stored positions returns that prefix |
| JumpQuery.FetchAbsent | src/CommonSource/DataStructures/JumpDnaHash.cpp:176-177 | a key whose table entry is 0xFFFFFFFFFF has no positions, and a lookup inserts no region, keeps occupancy 1 and leaves the cache unchanged |
| JumpQuery.FetchBeyond | src/CommonSource/DataStructures/JumpDnaHash.cpp:179-182 | an offset larger than the positions file is a fatal error |
| JumpQuery.RecordCount | src/CommonSource/DataStructures/JumpDnaHash.cpp:192-193 | a stored record starts with its position count |
| JumpQuery.MemoryRecordReadsBack | src/CommonSource/DataStructures/JumpDnaHash.cpp:188-213 | the in-memory path reads a stored record as its first capped-count positions with the matching occupancy |
| JumpQuery.DiskRecordReadsBack | src/CommonSource/DataStructures/JumpDnaHash.cpp:215-253 | the disk path reads a stored record as the same positions and occupancy as the in-memory path |
| JumpQuery.FetchReadsRecord | src/CommonSource/DataStructures/JumpDnaHash.cpp:130-260 | a key whose table entry points at a stored record yields the record's capped positions and occupancy on either path |
| JumpQuery.QueryRepeats | src/CommonSource/DataStructures/JumpDnaHash.cpp:141-161 | asking again for the same key with the cache a lookup left gives the same regions and leaves the cache as it was |
| JumpQuery.MetaHashSizeMatches | src/CommonSource/DataStructures/JumpDnaHash.cpp:76-80 | the hash size check passes exactly when the metadata file starts with the requested hash size |
| JumpQuery.JumpDnaHash.constructor | src/CommonSource/DataStructures/JumpDnaHash.cpp:16-98 | the cache is used exactly when it has room and keys and positions are not both in memory; a position limit turns limiting on |
| JumpQuery.JumpDnaHash.RandomizeAndTrimHashPositions | src/CommonSource/DataStructures/JumpDnaHash.cpp:343-346 | limiting is on with the given maximum and nothing else changes |
| JumpQuery.JumpDnaHash.ReadKey | src/CommonSource/DataStructures/JumpDnaHash.cpp:167-174 | returns the offset the key table gives for the key |
| JumpQuery.JumpDnaHash.EmitRegions | src/CommonSource/DataStructures/JumpDnaHash.cpp:203-213 | the loop inserts one region per position, in order, after the existing regions |
| JumpQuery.JumpDnaHash.GetFromMemory | src/CommonSource/DataStructures/JumpDnaHash.cpp:188-213 | returns the in-memory record's occupancy and regions, or its failure |
| JumpQuery.JumpDnaHash.GetFromDisk | src/CommonSource/DataStructures/JumpDnaHash.cpp:215-260 | returns the on-disk record's occupancy and regions, or its failure, and caches the positions when the cache is in use |
| JumpQuery.JumpDnaHash.LoadEntry | src/CommonSource/DataStructures/JumpDnaHash.cpp:223-226 | the buffer grows by CheckBufferSize and holds the entry bytes exactly when the whole entry lies in the file |
| JumpQuery.JumpDnaHash.ReadEntry | src/CommonSource/DataStructures/JumpDnaHash.cpp:226 | the buffer's first bytes are the entry's bytes |
| JumpQuery.JumpDnaHash.EmitFromBuffer | src/CommonSource/DataStructures/JumpDnaHash.cpp:235-253 | the positions decoded from the buffer are the ones stored, and each gives one inserted region |
| JumpQuery.JumpDnaHash.Lookup | src/CommonSource/DataStructures/JumpDnaHash.cpp:163-260 | returns what the two files say about the key: nothing for an absent key, otherwise its positions as regions and its occupancy |
| JumpQuery.JumpDnaHash.Locate | src/CommonSource/DataStructures/JumpDnaHash.cpp:176-260 | handles the absent marker, the out-of-range offset and the record at the offset |
| JumpQuery.JumpDnaHash.ReadRecord | src/CommonSource/DataStructures/JumpDnaHash.cpp:184-260 | reads the record by the path the settings choose |
| JumpQuery.JumpDnaHash.Get | src/CommonSource/DataStructures/JumpDnaHash.cpp:128-261 | a cached key yields its cached positions as regions with occupancy 1; any other key yields what the two files say, and a disk-path hit enters the cache; the data and settings stay unchanged |
| JumpQuery.AdvanceOffset | src/CommonSource/DataStructures/JumpDnaHash.cpp:242-243 | the unsigned buffer offset advances four bytes per position with 32-bit wrap-around |

## Left out

- File and operating-system I/O is not modelled.
  - Opening, closing and deleting files, temporary file names, and `LoadKeys`/`LoadPositions` are left out: the keys and positions files are byte sequences, whether read in memory or from disk.
  - `fseek`/`fwrite` on the output database are modelled by `WriteAt`, their effect on a byte sequence.
  - `GetMemoryUsage`/`GetMemoryUsedByProcess` read /proc and Win32 counters and are left out.
- Mutexes and threads are left out: `Get` and the creator are modelled single-threaded.
- Clocks and reference sequences are parameters.
  - The archive date written into the header is a parameter.
  - The genome (`mpBsRefSeqs`) and the reference sequences the creator hashes are parameters; `CReferenceSequenceReader` is not part of this model.
- `random_shuffle` in `StoreHash` is a shuffle parameter about which only "some permutation" is assumed.
- `MruCache` is a map without eviction, and hit/miss statistics are not kept.
- `CHashRegionTree` is a sequence that each inserted region is appended to. Its ordering and merging of regions are not part of this model.
- Floating point is not modelled.
  - The occupancy `double` is a pair (positions used, positions stored).
  - The memory budget at MosaikJump/JumpCreator.cpp:40-41 is the constant it evaluates to.
  - `GetFragmentAlignmentQuality` is left out.
- The `CMosaikString` internals (`Pack`, `Substring`, `TrimEnd`) are not part of this model. A pairwise string is a character sequence, and packing is a parameter.
- The `AF_*`/`RF_*` flag values are parameters.
- A `printf` followed by `exit(1)` is a `Fatal` failure.
- Reads past a buffer, a negative seek and wrapped counts are `Undefined` failures, except where a line below names a requires that excludes them. These include stale buffer bytes, a key-table read past the end and a window count below zero.
- File-opening failures in the constructors and allocation failures everywhere are left out, including the `bad_alloc` exit in `CheckBufferSize`. `CJumpDnaHash`'s constructor is modelled from the point where the metadata hash size has been checked; `MetaHashSizeMatches` states that check.
- `PairedEndSort` is modelled only in `GetCurrentModel`, `ExchangeMateInfo` and `ModelType::operator<`. The sorting driver around them uses files and threads.
- The `CJumpCreator` constructor sets `mMaxHashPositions` to the threshold and then overwrites it with the flush bound (MosaikJump/JumpCreator.cpp:36,41). This is modelled as written: one field is both the flush bound and the cap.
- In `CJumpDnaHash`, `mMaxHashPositions` is uninitialised until `RandomizeAndTrimHashPositions` runs. The model starts it at the constructor's `numPositions`, which is 0 when limiting is off; with limiting off the value is never read.
- Sizes of 2^31 positions and more (the `int` count in `StoreHash`, the `unsigned int` entry size in `Get`) are excluded by requires or reported as `Undefined`. Counts and offsets are not otherwise wrapped at 2^64.
- More than 256 temporary files per reference is excluded by requires, because `HashPosition::Owner` is one byte.
- JumpIndex.DatabaseReadsBack: states the reader's view only when the index end 30 + 20 n does not wrap at 2^32, because past that the index overwrites the header.
- JumpQuery.QueryRepeats: states that the regions and the cache repeat, but not the occupancy. A cache hit reports occupancy 1 even where the first lookup reported a fraction, as the TODO at src/CommonSource/DataStructures/JumpDnaHash.cpp:148 admits.
- Colorspace.ColorspaceUtilities.ConvertAlignmentToBasespace: counts mismatches over the final basespace strings. The source reads through pointers taken before the strings were reassigned (CommonSource/Utilities/ColorspaceUtilities.cpp:36-37,137-140); the count over the final strings is what the unit tests expect.
- MemoryUtilities.CheckBufferSize: uses the corrected length of the Findings row, which saturates at 2^32 - 1, instead of the wrapping `requestedBytes + 10`; the wrapping length is `GrownLengthWraps`. It also drops the `bad_alloc` handler that prints and calls `exit(1)` (CommonSource/Utilities/MemoryUtilities.cpp:22-25).
- MemoryUtilities.CheckedLengthGrows: states the growth of the corrected, saturating length, not of the wrapping length the source computes.
- JumpQuery.JumpDnaHash.LoadEntry: with the corrected, saturating buffer growth of the Findings row, an entry of 0xFFFFFFF6 bytes or more (record counts 0x3FFFFFFE and 0x3FFFFFFF) that lies in the file is loaded and read back, where the source grows the buffer to (size + 10) mod 2^32 bytes and its `fread` then writes past the buffer (undefined behaviour).
- JumpQuery.DiskRecordReadsBack: with the corrected, saturating buffer growth of the Findings row, an entry of 0xFFFFFFF6 bytes or more (record counts 0x3FFFFFFE and 0x3FFFFFFF) that lies in the file is loaded and read back, where the source grows the buffer to (size + 10) mod 2^32 bytes and its `fread` then writes past the buffer (undefined behaviour).
- JumpQuery.FetchReadsRecord: with the corrected, saturating buffer growth of the Findings row, an entry of 0xFFFFFFF6 bytes or more (record counts 0x3FFFFFFE and 0x3FFFFFFF) that lies in the file is loaded and read back, where the source grows the buffer to (size + 10) mod 2^32 bytes and its `fread` then writes past the buffer (undefined behaviour).
- JumpQuery.JumpDnaHash.GetFromDisk: with the corrected, saturating buffer growth of the Findings row, an entry of 0xFFFFFFF6 bytes or more (record counts 0x3FFFFFFE and 0x3FFFFFFF) that lies in the file is loaded and read back, where the source grows the buffer to (size + 10) mod 2^32 bytes and its `fread` then writes past the buffer (undefined behaviour).
- JumpQuery.JumpDnaHash.Lookup: with the corrected, saturating buffer growth of the Findings row, an entry of 0xFFFFFFF6 bytes or more (record counts 0x3FFFFFFE and 0x3FFFFFFF) that lies in the file is loaded and read back, where the source grows the buffer to (size + 10) mod 2^32 bytes and its `fread` then writes past the buffer (undefined behaviour).
- JumpQuery.JumpDnaHash.Locate: with the corrected, saturating buffer growth of the Findings row, an entry of 0xFFFFFFF6 bytes or more (record counts 0x3FFFFFFE and 0x3FFFFFFF) that lies in the file is loaded and read back, where the source grows the buffer to (size + 10) mod 2^32 bytes and its `fread` then writes past the buffer (undefined behaviour).
- JumpQuery.JumpDnaHash.ReadRecord: with the corrected, saturating buffer growth of the Findings row, an entry of 0xFFFFFFF6 bytes or more (record counts 0x3FFFFFFE and 0x3FFFFFFF) that lies in the file is loaded and read back, where the source grows the buffer to (size + 10) mod 2^32 bytes and its `fread` then writes past the buffer (undefined behaviour).
- JumpQuery.JumpDnaHash.Get: with the corrected, saturating buffer growth of the Findings row, an entry of 0xFFFFFFF6 bytes or more (record counts 0x3FFFFFFE and 0x3FFFFFFF) that lies in the file is loaded and read back, where the source grows the buffer to (size + 10) mod 2^32 bytes and its `fread` then writes past the buffer (undefined behaviour).
- LegacyColorspace.LegacyColorspaceUtilities.ConvertAlignmentToBasespace: counts mismatches over the final reference and query strings. The source compares through pointers taken before those strings were reassigned (src/CommonSource/Utilities/ColorspaceUtilities.cpp:35-36,103-108); the count over the final strings is the evident intent.
- Colorspace.ColorspaceUtilities.ConvertAlignmentToBasespace: requires the pairwise length plus ARRAY_EXTENSION to stay below 2^16. The source passes the length as an unsigned short, so a length of 2^16 or more is cut; and at a length within ARRAY_EXTENSION of 2^16, `mNumGapsObservedLen = pairwiseLen + ARRAY_EXTENSION` wraps and the gap loop writes past the new array (undefined behaviour; CommonSource/Utilities/ColorspaceUtilities.cpp:744-753, src/CommonSource/Utilities/ColorspaceUtilities.cpp:410-419).
- Colorspace.ColorspaceUtilities.PatchAlignment: requires the pairwise length plus ARRAY_EXTENSION to stay below 2^16. The source passes the length as an unsigned short, so a length of 2^16 or more is cut; and at a length within ARRAY_EXTENSION of 2^16, `mNumGapsObservedLen = pairwiseLen + ARRAY_EXTENSION` wraps and the gap loop writes past the new array (undefined behaviour; CommonSource/Utilities/ColorspaceUtilities.cpp:744-753, src/CommonSource/Utilities/ColorspaceUtilities.cpp:410-419).
- LegacyColorspace.LegacyColorspaceUtilities.ConvertAlignmentToBasespace: requires the pairwise length plus ARRAY_EXTENSION to stay below 2^16. The source passes the length as an unsigned short, so a length of 2^16 or more is cut; and at a length within ARRAY_EXTENSION of 2^16, `mNumGapsObservedLen = pairwiseLen + ARRAY_EXTENSION` wraps and the gap loop writes past the new array (undefined behaviour; CommonSource/Utilities/ColorspaceUtilities.cpp:744-753, src/CommonSource/Utilities/ColorspaceUtilities.cpp:410-419).
- LegacyColorspace.LegacyColorspaceUtilities.PatchAlignment: requires the pairwise length plus ARRAY_EXTENSION to stay below 2^16. The source passes the length as an unsigned short, so a length of 2^16 or more is cut; and at a length within ARRAY_EXTENSION of 2^16, `mNumGapsObservedLen = pairwiseLen + ARRAY_EXTENSION` wraps and the gap loop writes past the new array (undefined behaviour; CommonSource/Utilities/ColorspaceUtilities.cpp:744-753, src/CommonSource/Utilities/ColorspaceUtilities.cpp:410-419).
- Colorspace.ColorspaceUtilities.ConvertAlignmentToBasespace: requires the genome to hold a base at ReferenceBegin plus the pairwise length. The source reads at most that far: the canonical-base scan reads positions up to the pairwise length minus one unshifted, and the region copy reads up to one past the region's end minus the reference gaps before its start (CommonSource/Utilities/ColorspaceUtilities.cpp:312, 327, 359, 484, 493). When every identity region reaching the last position starts after a reference gap, or none reaches it, the source stops one base short of that, so such an alignment, when ReferenceBegin plus the pairwise length is exactly the length of its reference sequence, is outside the model.
- Colorspace.ColorspaceUtilities.PatchAlignment: requires the genome window to be longer than the pairwise length, for the same reason as ConvertAlignmentToBasespace above; the source may need one base less there.
- LegacyColorspace.LegacyColorspaceUtilities.ConvertAlignmentToBasespace: requires the genome to hold a base at ReferenceBegin plus the pairwise length. The source reads at most that far: the mismatch seed at the region's start minus its preceding reference gaps, and the region copy up to one past the region's end minus those gaps (src/CommonSource/Utilities/ColorspaceUtilities.cpp:71, 92). When the last region starts after a reference gap, or no region reaches the last position, the source stops one base short of that, so such an alignment, when ReferenceBegin plus the pairwise length is exactly the length of its reference sequence, is outside the model.
- LegacyColorspace.LegacyColorspaceUtilities.PatchAlignment: requires the genome window to be longer than the pairwise length, for the same reason as ConvertAlignmentToBasespace above; the source may need one base less there.
- ColorspaceAlignment.ObservedGaps.Update: requires the pairwise length plus ARRAY_EXTENSION to stay below 2^16. The source passes the length as an unsigned short, so a length of 2^16 or more is cut; and at a length within ARRAY_EXTENSION of 2^16, `mNumGapsObservedLen = pairwiseLen + ARRAY_EXTENSION` wraps and the gap loop writes past the new array (undefined behaviour; CommonSource/Utilities/ColorspaceUtilities.cpp:744-753, src/CommonSource/Utilities/ColorspaceUtilities.cpp:410-419).
- ColorspaceAlignment.FindIdenticalRegions: requires the pairwise length to stay below 2^16 - 1. At 65535, `FindIndenticalRegions` sets `i = end` and `i++` wraps the unsigned short to 0, so the loop never ends (CommonSource/Utilities/ColorspaceUtilities.cpp:460-470, src/CommonSource/Utilities/ColorspaceUtilities.cpp:264-274).
- Colorspace.ColorspaceUtilities.ConvertRegions: requires the pairwise length to stay below 2^16 - 1. At 65535, `FindIndenticalRegions` sets `i = end` and `i++` wraps the unsigned short to 0, so the loop never ends (CommonSource/Utilities/ColorspaceUtilities.cpp:460-470, src/CommonSource/Utilities/ColorspaceUtilities.cpp:264-274).
- LegacyColorspace.LegacyColorspaceUtilities.ConvertRegions: requires the pairwise length to stay below 2^16 - 1. At 65535, `FindIndenticalRegions` sets `i = end` and `i++` wraps the unsigned short to 0, so the loop never ends (CommonSource/Utilities/ColorspaceUtilities.cpp:460-470, src/CommonSource/Utilities/ColorspaceUtilities.cpp:264-274).
- AlignedReads.Serialize: requires that no size wraps its unsigned int (an alignment's GetSerializationSize, a mate count, the entry size); past that the source resizes the buffer to the wrapped size and writes beyond it (undefined behaviour). When a pairwise length is 2^16 or more, the records are shorter than the entry size and the bytes after them are not stated: the source leaves there whatever the reused `std::string` held.
- LegacyColorspace: an alignment that yields no identity region indexes an empty vector in the source and is an `Undefined` failure.

## Findings

| source | as written | input that shows it | evidently intended | confidence | as-written member | corrected member |
|---|---|---|---|---|---|---|
| CommonSource/Utilities/MemoryUtilities.cpp:15-26 | the new length is `requestedBytes + 10` in `unsigned int` arithmetic | `requestedBytes` = 0xFFFFFFFF with `bufferLen` = 4096: the length wraps to 9 and a 9-byte buffer replaces the old one | a buffer at least as long as the request | not executed | MemoryUtilities.GrownLengthWraps | MemoryUtilities.SaturatedLength |
