# iliad-aligner in Dafny

The repository aligns the words of a Homeric verse with the words of its
paraphrase. The source side is the `HOM` words and the target side is the
`PARA` words.

An alignment is a set of edits:
- `Ins` keeps a target word without a partner;
- `Del` keeps a source word without a partner;
- `Eq` joins one source word to one target word with the same text;
- `Sub` joins a group of source words to a group of target words.

The aligner starts from an alignment made only of `Del` and `Ins` edits and
searches greedily. At each step it asks the Greek aligner's `next` for the
alignments one step away. It moves to the first one with the highest weighted
feature score and stops when `next` has nothing to propose.

The weights are learned with an averaged perceptron over a gold standard of
hand-made alignments. The gold standard is grouped by chant and verse.
Alignments are exported as two JSON maps keyed by word ID.

The model covers the following:

- `Words`:
  - the word record and word IDs;
  - the problem locator;
  - `sumWords`;
  - Go's byte length of a string;
  - the sort by ID.
- `Edits`: the four edits, `getWords`, the edit's problem ID, and the word test of `removeEditWithWordsByID`.
- `Alignments`:
  - alignments as sequences of edits;
  - `add`, `remove` and `filter`;
  - `includes`, `equalSub` and `EditsAccuracy`;
  - `NewFromWordBags` and `NewFromEdits`;
  - the word-partition invariant.
- `Scoring`: the edit and alignment scores, `Phi` and `ScoreAccuracy`.
- `Features`:
  - the field distances and the vocabulary features;
  - the commentary (scholia) distance, its prefix cache, and `multiMax`;
  - `MaxDistance` and `EditType`;
  - the root package's variants of these.
- `Subsequences`: `limitedSubsequences`, including its enumeration order.
- `Greek`: the successor function `next` of both copies, and `removeEditWithWordsByID`.
- `Driver`: the greedy search `Align`.
- `Vectors`: `vectors.go`.
- `Learner`: `shuffle`, one perceptron update, the training loop `learn`, and the averaging.
- `Json`:
  - `removeAt`, `ToJSONEdit`, `Explode`, `ToJSONEdits`;
  - `MergeAlignments`.
- `Gold`: `canGetEdit`, `getEditFromTu`, the `getWords` round trip, and `getProblems`.

Representation choices:
- **Alignments.** Go keeps an alignment in a map keyed by edit pointers. Here it
  is a sequence of edit values: one possible iteration order of that map.
  Every operation whose result does not depend on that order has a lemma
  saying so.
- **Map iteration.** The order of Go's map iteration is a parameter wherever
  it matters (the word bags, the database). The random generator of `shuffle`
  is a sequence of draws.
- **Collaborators.** Several collaborators of the features are parameters:
  - the Levenshtein distance;
  - Unicode normalisation, lower-casing and punctuation stripping;
  - the vocabularies and the commentary index.

  The only facts assumed about the Levenshtein distance are stated in
  `LevAxioms`.
- **Norm and aligner.** The norm given to `Normalize` is a parameter, and so is
  the aligner given to `learn`. `IsNorm2` states when a value is the Euclidean
  norm.
- **NaN.** Where a field or commentary distance computes 0/0 and Go gets
  NaN, the model returns `None`. `EditsAccuracy` is the exception: its
  empty-reference NaN is excluded by a precondition (see "## Left out").

## Model

| member | source | states |
|---|---|---|
| Words.ByteLen | aligner/aligner.go:391 | Go's `len` of a string counts UTF-8 bytes: between one and four per character, and 0 only for the empty string |
| Words.ByteLenIsRuneCountIffAscii | aligner/aligner.go:391 | the byte length equals the character count exactly when every character is ASCII |
| Words.GetWordID | aligner/aligner.go:79 | the word ID is the source tag, a dot, then the raw ID, with that exact layout and length |
| Words.GetWordIDInjective | main.go:250-252 | with dot-free source tags, equal word IDs come from equal tags and equal raw IDs |
| Words.ProblemIdOf | aligner/aligner.go:91-94 | the problem locator is chant, dot, verse; it has a dot after the chant and so is never empty |
| Words.SumWordsSingleton | aligner/aligner.go:449-474 | summing a single word gives that word back |
| Words.ConcatAppend | aligner/aligner.go:449-474 | concatenating the texts of two groups is the concatenation of each group's texts |
| Words.SumWordsAppend | aligner/aligner.go:449-474 | the summed text, lemma and tag of two groups are the concatenations of each group's, and the identity fields come from the first word |
| Words.StrLessTransitive | aligner/greek.go:49-50 | Go's string order on IDs is transitive |
| Words.PrependSorted | aligner/greek.go:49-50 | putting a word no greater than every element in front keeps a sequence sorted by ID |
| Words.BelowHead | aligner/greek.go:49-50 | a word smaller than the head of a sorted sequence is smaller than every element |
| Words.HeadBelowRest | aligner/greek.go:49-50 | the head of a sorted sequence is no greater than any element of the rest with one more word inserted |
| Words.InsertByID | aligner/greek.go:49-50 | insertion into a sequence sorted by ID yields a permutation of the sequence plus the word, still sorted |
| Words.SortByID | aligner/greek.go:49-50 | sorting the `Del` or `Ins` words by ID yields a permutation of them in ID order |
| Edits.MatchesWordIffUses | aligner/greek.go:165-194 | `removeEditWithWordsByID` matches an edit against a word exactly when the edit uses that very word value, so its ID tests are redundant |
| Edits.EditProblemId | aligner/aligner.go:504-519 | an edit's problem is its first source word's (the target word's for `Ins`); a `Sub` without source words has none |
| Alignments.KeepIf | aligner/aligner.go:836-841 | keeping the edits that pass a test: each passing edit keeps its multiplicity, every other edit is gone |
| Alignments.Filter | aligner/aligner.go:816-824 | `filter` keeps exactly the edits of one dynamic type, with their multiplicities |
| Alignments.DelInsWordsMembers | aligner/greek.go:16-24 | a word is among the deleted words exactly when its `Del` edit is in the alignment; likewise for inserted words |
| Alignments.DelWordsAppend | aligner/greek.go:16-24 | the deleted and inserted words of two alignments put together are those of each, in order |
| Alignments.DelCountKeepIf | aligner/aligner.go:836-841 | removing edits never adds `Del` edits, and removing a `Del` edit strictly lowers their number |
| Alignments.CountInAppend | aligner/aligner.go:681-686 | adding edits adds their word uses to the alignment's |
| Alignments.CountInMember | aligner/aligner.go:598-600 | an alignment uses a word at least as often as any of its edits does |
| Alignments.CountInTwoMembers | aligner/aligner.go:598-600 | two different edits of an alignment contribute separately to its word uses |
| Alignments.CountInKeepAll | aligner/aligner.go:836-841 | removing only edits that do not use a word keeps that word's uses |
| Alignments.CountInKeepNone | aligner/aligner.go:836-841 | removing every edit that uses a word leaves no use of it |
| Alignments.DelInsWordsBound | aligner/greek.go:16-24 | a word is deleted and inserted at most as often as the alignment uses it |
| Alignments.PartitionedEditsDistinct | aligner/aligner.go:598-600 | in an alignment that uses every word once, two positions holding non-empty edits hold different edits, so removal by value is removal by pointer |
| Alignments.IdSet | aligner/aligner.go:629-649 | the ID set built by `equalSub` holds exactly the IDs of the given words |
| Alignments.AllIdsIn | aligner/aligner.go:629-649 | the loops of `equalSub` succeed exactly when every word's ID is in the set |
| Alignments.EqualSub | aligner/aligner.go:629-649 | `equalSub(s, t)`: every source ID of t is a source ID of s, and every target ID of t is a source or target ID of s |
| Alignments.EqualSubReflexive | aligner/aligner.go:629-649 | a substitution is equal to itself |
| Alignments.EqualSubOrderIndependent | aligner/aligner.go:629-649 | `equalSub` depends only on which words the groups contain, not on their order |
| Alignments.EqualSubNotSymmetric | aligner/aligner.go:629-649 | `equalSub` is a containment test and not symmetric: an explicit pair of substitutions where it holds one way only |
| Alignments.EditMatchesSameKind | aligner/aligner.go:602-627 | `includes` only matches edits of the same dynamic type |
| Alignments.EditMatchesReflexive | aligner/aligner.go:602-627 | every edit matches itself |
| Alignments.Includes | aligner/aligner.go:602-627 | `includes` holds exactly when some edit of the alignment matches the given one |
| Alignments.IncludesOwnEdits | aligner/aligner.go:602-627 | an alignment includes each of its own edits |
| Alignments.IncludesOrderFree | aligner/aligner.go:602-627 | `includes` does not depend on the map's iteration order |
| Alignments.CountIncluded | aligner/aligner.go:661-670 | the count of included gold edits is at most the gold size, and equal to it exactly when every gold edit is included |
| Alignments.EditsAccuracy | aligner/aligner.go:661-670 | the edit accuracy lies in [0,1] and is 1 exactly when every gold edit is included |
| Alignments.EditsAccuracySelf | main_test.go:19-57 | a non-empty alignment has accuracy 1 against itself |
| Alignments.CountIncludedOrderFree | aligner/aligner.go:661-670 | the accuracy does not depend on the iteration order of the predicted alignment |
| Alignments.BagWords | aligner/aligner.go:714-726 | visiting a word bag in a key order yields the words stored under those keys |
| Alignments.DelsOf | aligner/aligner.go:700-712 | one `Del` edit per word, in order |
| Alignments.InssOf | aligner/aligner.go:700-712 | one `Ins` edit per word, in order |
| Alignments.NewFromWordBags | aligner/aligner.go:714-726 | the initial alignment has only `Del` and `Ins` edits: a `Del` for exactly the source bag's words and an `Ins` for exactly the target bag's, one per key |
| Alignments.SingletonEditsPartitioned | aligner/aligner.go:714-726 | single-word edits over words with distinct IDs use each word at most once |
| Alignments.CountInZero | aligner/aligner.go:598-600 | an alignment none of whose edits uses a word does not use it |
| Alignments.FreshIdsDistinct | aligner/aligner.go:714-726 | with each bag keyed by its words' IDs and disjoint bags, the initial edits carry pairwise distinct word IDs |
| Alignments.NewFromWordBagsPartitioned | aligner/aligner.go:714-726 | under those conditions the initial alignment uses every word at most once |
| Scoring.SumOfAppend | aligner/aligner.go:672-679 | a sum over the edits of two alignments is the sum of the two sums |
| Scoring.SumOfOrderFree | aligner/aligner.go:672-679 | a sum over an alignment's edits does not depend on their iteration order |
| Scoring.SumOfRemoveAt | aligner/aligner.go:672-679 | the sum is any one edit's value plus the sum over the others |
| Scoring.SumOfLinear | aligner/aligner.go:521-572 | summing a linear combination of edit functions gives the same combination of the sums |
| Scoring.ScoreIsDotPhi | aligner/aligner.go:672-698 | the alignment score is the dot product of the weights with `Phi` of the alignment |
| Scoring.ZeroSum | aligner/aligner.go:672-679 | summing zero over any alignment gives zero |
| Scoring.ScoreEmpty | aligner/aligner.go:672-698 | the empty alignment scores 0 and has an all-zero `Phi` |
| Scoring.ScoreAppend | aligner/aligner.go:672-698 | score and `Phi` are additive over alignments put together |
| Scoring.ScoreOrderFree | aligner/aligner.go:672-698 | score and `Phi` do not depend on the iteration order |
| Scoring.Accuracy | aligner/aligner.go:651-659 | the score ratio is 0 when the larger score is 0, 1 for equal non-zero scores, and in [0,1] for non-negative scores |
| Scoring.AccuracySymmetric | aligner/aligner.go:651-659 | the score ratio is symmetric in its two scores |
| Scoring.ScoreAccuracy | main.go:144-151 | `scoreAccuracy` is 0 when the larger of the two alignment scores is 0, 1 when the scores are equal and non-zero, and in [0,1] when both scores are non-negative |
| Scoring.ScoreAccuracySymmetric | main.go:144-151 | `scoreAccuracy` is symmetric in its two alignments |
| Scoring.ScoreAccuracySameEdits | main.go:144-151 | two alignments with the same edits and a non-zero score have score accuracy 1 |
| Features.Lookup | aligner/aligner.go:307-365 | a missing dictionary key reads as no meanings |
| Features.FieldDistance | aligner/aligner.go:381-396 | the field similarity is undefined (NaN) exactly when both fields are empty, and is never above 1 |
| Features.DistanceOnField | aligner/aligner.go:381-396 | `distanceOnField` is undefined (NaN) exactly when the chosen field is empty on both summed sides, is at most 1, and is 1 when the summed fields agree and are non-empty |
| Features.FieldDistanceIdentical | aligner/aligner_test.go:177-212 | identical non-empty fields have similarity 1 |
| Features.FieldDistanceEmptySource | aligner/aligner.go:381-396 | against an empty source field the similarity is one minus characters over bytes of the other field |
| Features.FieldDistanceEmptyTarget | aligner/aligner.go:381-396 | the same against an empty target field |
| Features.OneMinusRatioZero | aligner/aligner.go:381-396 | one minus a ratio is 0 exactly when the ratio's two terms are equal |
| Features.FieldDistanceAgainstEmpty | aligner/aligner.go:381-396 | against an empty field the similarity is symmetric and is 0 exactly when the other field is ASCII |
| Features.DistanceOnFieldInsertedAscii | aligner/aligner_test.go:177-212 | an inserted or deleted word with non-empty ASCII text has lexical similarity 0 |
| Features.DistanceOnFieldSummedEqual | aligner/aligner.go:381-396 | edits whose summed fields agree and are non-empty have similarity 1 |
| Features.DistanceOnFieldExampleEq | aligner/aligner_test.go:177-212 | `Eq(a, a)` has lexical similarity 1 |
| Features.DistanceOnFieldExampleLonger | aligner/aligner_test.go:177-212 | `Sub([a], [aa])` has lexical similarity 0.5 |
| Features.DistanceOnFieldExampleSummed | aligner/aligner_test.go:177-212 | `Sub([a, a], [aa])` has lexical similarity 1, because the groups are summed before comparing |
| Features.MatchesAny | aligner/aligner.go:281-295 | the inner loop of `hasSameMeaning` finds a meaning with the given comparison form exactly when one exists |
| Features.AnyPairMatches | aligner/aligner.go:281-295 | the two loops find a pair of meanings with equal comparison forms exactly when one exists |
| Features.HasSameMeaning | aligner/aligner.go:281-295 | `hasSameMeaning` holds exactly when the lists have the same length and share a meaning after normalising and lower-casing |
| Features.HasSameMeaningReflexive | aligner/aligner_test.go:79-101 | a non-empty meaning list has the same meaning as itself |
| Features.HasSameMeaningSymmetric | aligner/aligner.go:281-295 | `hasSameMeaning` is symmetric |
| Features.VocDistance | aligner/aligner.go:337-365 | `VocDistance` is 0 or 1, and 1 only for an `Eq` or a one-to-one `Sub` |
| Features.VocDistanceMatch | aligner/aligner.go:337-365 | an `Eq`, or the one-to-one `Sub` of the same two words, scores 1 on the vocabulary feature exactly when the vocabulary meanings of the two lemmas have the same meaning |
| Features.EqEquivTermDistance | aligner/aligner.go:307-335 | `EqEquivTermDistance` is 0 or 1, and 1 only for an `Eq` or a one-to-one `Sub` |
| Features.VocFeaturesEqAsSub | aligner/aligner.go:307-365 | both vocabulary features score an `Eq` like the one-to-one `Sub` of the same words |
| Features.EqEquivTermMatch | aligner/aligner.go:307-335 | an `Eq` scores 1 exactly when the source lemma has a single equivalent term matching the target lemma |
| Features.VocDistanceExamples | aligner/aligner_test.go:103-142 | insertions and deletions score 0, an `Eq` of a word with meanings scores 1, and a one-to-one `Sub` of words sharing no meaning scores 0 |
| Features.Gather | aligner/aligner.go:200-204 | the collected list holds exactly the commentary stored under the keys the trie holds |
| Features.ScholieEntries | aligner/aligner.go:183-209 | on a text not yet seen, the empty text has no commentary entries, and any other text has exactly the commentary stored under the trie keys it is a prefix of |
| Features.CachedScholieEntries | aligner/aligner.go:183-209 | the lookup as written stores its answer under the text, and on a text not yet cached answers like the uncached lookup |
| Features.CachedSecondLookup | aligner/aligner.go:188-206 | the second lookup of a text, as written, looks up the first lookup's commentary as if it were trie keys |
| Features.StoredScholieEntries | aligner/aligner.go:183-209 | with the intended cache, a cache holding true answers gives the uncached answer and stays true |
| Features.StoredScholieEntriesRun | aligner/aligner.go:183-209 | from a cache holding true answers, every lookup of a sequence gives the uncached answer |
| Features.CachedScholieDistanceDiffers | aligner/aligner.go:188-249 | a concrete commentary index where the first evaluation of `ScholieDistance` scores 1 and the second, through the cache as written, scores 0 |
| Features.ScholieTestLookups | aligner/aligner_test.go:144-175 | with the test's trie, three lookups of "αειδε" through the cache as written give the commentary, then nothing, then nothing |
| Features.ScholieTestDistances | aligner/aligner_test.go:144-175 | the test's target texts lie at 0.2, 0.5, 0, 0.625, 0.625 and 0 from its commentary entries, relative to byte length, under the library's default Levenshtein costs (substitution 2) |
| Features.ScholieTestScore | aligner/aligner.go:229-248 | a target at distances p and q from the two entries scores one minus the smaller |
| Features.ScholieTestRowsAsWritten | aligner/aligner_test.go:163-166 | through the cache as written, the test's rows score 0.8, 0 and 0, the values the test expects |
| Features.ScholieTestRowsUncached | aligner/aligner_test.go:163-166 | with the uncached lookup, the same rows score 0.8, 1 and 1 |
| Features.EntryDistance | aligner/aligner.go:211-249 | the relative distance to one entry is non-negative, and undefined exactly when both texts are empty |
| Features.EntryDistances | aligner/aligner.go:211-249 | one relative distance per entry, in order |
| Features.ScanScholie | aligner/aligner.go:229-240 | the scan loop finds the least defined distance, or stays at +Inf when there is none |
| Features.ScholieScore | aligner/aligner.go:211-249 | for a given list of entries, the score is 1 for insertions and deletions, 0 when no entry gives a defined distance, otherwise one minus the least distance, and never above 1 |
| Features.ScholieDistance | aligner/aligner.go:211-249 | `ScholieDistance` on the source text's commentary is 1 for insertions and deletions, 0 when no entry gives a defined distance, and otherwise one minus the least distance |
| Features.ScholieDistanceNoEntry | aligner/aligner.go:211-249 | an edit whose source text has no commentary entry scores 0 |
| Features.MultiMax | aligner/aligner.go:408-416 | `multiMax` is the largest defined value, and undefined (-Inf) exactly when no value is defined |
| Features.MultiMaxFrom | aligner/aligner.go:408-416 | the loop of `multiMax` from a running maximum keeps the largest defined value seen |
| Features.MaxDistance | aligner/aligner.go:115-124 | `MaxDistance` is the largest of the feature values and at least each vocabulary and commentary feature |
| Features.EditType | aligner/aligner.go:99-113 | `EditType` weighs every edit positively |
| Features.RootHasSameMeaning | main.go:506-519 | the root `hasSameMeaning` holds exactly when the lists have the same length and share a meaning verbatim |
| Features.RootAnyPair | main.go:506-519 | its loops find a shared meaning exactly when one exists |
| Features.RootSameMeaningImpliesSameMeaning | main.go:506-519 | whatever the root test accepts, the normalising test accepts too |
| Features.RootChoose | main.go:464-471 | the root scan ends on the last entry at the least raw edit distance |
| Features.RootScholieDistance | main.go:432-479 | the root `ScholieDistance` is 0 without entries and at most 1. With entries, it takes the last entry at the least raw distance to the target text: 0 if that entry is empty, otherwise one minus that raw distance. With no empty entry, it is one minus the least raw distance |
| Features.RootScholieExactMatch | main.go:460-477 | a non-empty target text that is itself an entry makes the root feature 1 |
| Features.NearestIsExact | main.go:464-475 | when the target is a non-empty entry, the last nearest entry is at distance 0 and is not empty |
| Features.RootOnField | main.go:547-572 | the root field features never exceed 1, and are 1 whenever the summed fields agree, empty fields included |
| Features.RootOnFieldScaled | main.go:547-572 | where the package feature is defined it is the root feature's dissimilarity divided by the longer byte length; where it is NaN the root feature is 1 |
| Features.RootOnFieldInserted | main.go:547-572 | against an empty field the root feature is one minus the rune count of the other |
| Features.RootVocDistance | main.go:520-545 | the root `VocDistance` is 0 or 1, and 1 only for an `Eq` or a one-to-one `Sub` |
| Features.RootVocImpliesVoc | main.go:506-545 | whatever the root vocabulary feature accepts, the package's accepts |
| Features.RootMaxDistance | main.go:377-386 | the root `MaxDistance` is the largest of its five features and at least each of them |
| Subsequences.Prepend | aligner/greek.go:122-137 | putting a position in front of each combination |
| Subsequences.Choose | aligner/greek.go:122-137 | `comb(n, m)` from position lo emits only increasing m-position selections within [lo, n) |
| Subsequences.ConsSound | aligner/greek.go:122-137 | a position before an increasing selection extends it |
| Subsequences.TailSound | aligner/greek.go:122-137 | the tail of an increasing selection starts after its head |
| Subsequences.ChooseComplete | aligner/greek.go:122-137 | `comb` emits every increasing m-position selection within [lo, n) |
| Subsequences.PrependMember | aligner/greek.go:122-137 | prefixed members are members of the prefixed list |
| Subsequences.LexLessPrepend | aligner/greek.go:122-137 | a common first position does not change the lexicographic order |
| Subsequences.ChooseOrdered | aligner/greek.go:122-137 | `comb` emits its selections in strictly increasing lexicographic order |
| Subsequences.HeadBeforeRest | aligner/greek.go:122-137 | selections starting at lo come before those starting later |
| Subsequences.CombFrom | aligner/greek.go:140-150 | the outer loop of `combIndexes` from size i yields increasing selections of i to k positions |
| Subsequences.CombIndexes | aligner/greek.go:140-150 | `combIndexes(n, k)` yields increasing selections of 1 to k positions below n |
| Subsequences.CombFromComplete | aligner/greek.go:140-150 | every such selection of size at least i is produced |
| Subsequences.CombFromOrdered | aligner/greek.go:140-150 | shorter selections come first, then lexicographic order |
| Subsequences.CombIndexesSpec | aligner/greek.go:140-150 | `combIndexes` holds exactly the increasing selections of 1 to k positions, in size-then-lexicographic order |
| Subsequences.LexLessIrreflexive | aligner/greek.go:122-137 | no selection is lexicographically before itself |
| Subsequences.CombIndexesDistinct | aligner/greek.go:140-150 | `combIndexes` holds no selection twice |
| Subsequences.CombIndexesEmpty | aligner/greek.go:140-150 | `combIndexes` is empty exactly when k <= 0 or there is nothing to choose from |
| Subsequences.CombFromNone | aligner/greek.go:140-150 | nothing is chosen from no positions |
| Subsequences.Select | aligner/greek.go:155-161 | a selection picks the elements at the chosen positions |
| Subsequences.LimitedSubsequences | aligner/greek.go:121-163 | `limitedSubsequences` gives, for each index combination in order, the elements at those positions |
| Subsequences.LimitedSubsequencesElements | aligner/greek.go:121-163 | each subsequence has 1 to k elements, all from the input, and no repeats when the input has none |
| Subsequences.LimitedSubsequencesComplete | aligner/greek.go:121-163 | every selection at 1 to k increasing positions is produced |
| Subsequences.LimitedSubsequencesEmpty | aligner/greek.go:121-163 | the result is empty exactly when k <= 0 or the input is empty |
| Greek.EqRowPairsMembers | aligner/greek.go:28-42 | the inner Eq loop pairs a deleted word with exactly the inserted words whose text matches |
| Greek.EqPairsMembers | aligner/greek.go:26-43 | the Eq loops visit exactly the matching (deleted, inserted) pairs |
| Greek.MapPairsMembers | aligner/greek.go:26-43 | one candidate per pair, and every candidate comes from a pair |
| Greek.EqPassMembers | aligner/greek.go:26-43 | the Eq pass proposes exactly one `Eq` candidate per matching pair |
| Greek.EqPassEmpty | aligner/greek.go:26-47 | the Eq pass is empty exactly when no pair matches |
| Greek.ToRemove | aligner/greek.go:165-194 | the edits `removeEditWithWordsByID` collects are exactly those matching some given word |
| Greek.RemoveEditWithWordsByID | aligner/greek.go:165-194 | afterwards exactly the edits that use none of the words are left, each with its multiplicity |
| Greek.GridLength | aligner/greek.go:64-76 | the Sub loops visit one pair per (source group, target group) |
| Greek.GridMembers | aligner/greek.go:64-76 | they visit exactly the pairs of a source group and a target group |
| Greek.GridIndex | aligner/greek.go:64-76 | the pair of groups p and q is visited at position p times the number of target groups plus q |
| Greek.NextIsEqPass | aligner/greek.go:16-45 | when a deleted and an inserted word match, `next` returns the Eq pass |
| Greek.NextIsSubPass | aligner/greek.go:16-78 | otherwise, with deleted words left, `next` returns the Sub pass over the sorted groups |
| Greek.NextEqFirst | aligner/greek.go:16-45 | in that first case the successors are exactly the alignments with one matching `Del`/`Ins` pair joined into an `Eq` |
| Greek.NextSubs | aligner/greek.go:47-78 | in the second case there is one successor per pair of groups, and each replaces the groups' edits by their `Sub` |
| Greek.SubPassMembers | aligner/greek.go:64-76 | the Sub pass proposes exactly one candidate per pair of groups |
| Greek.NextSubMember | aligner/greek.go:64-76 | each Sub successor comes from a concrete source group and target group |
| Greek.NextSubComplete | aligner/greek.go:47-78 | every choice of 1 to k deleted and 1 to k inserted words, in ID order, gives a successor |
| Greek.SortedLength | aligner/greek.go:49-50 | sorting keeps the number of words |
| Greek.NextEmpty | aligner/greek.go:16-78 | `next` proposes nothing exactly when no `Del` is left, or when no pair matches and either no `Ins` is left or k <= 0 |
| Greek.RemoveDelCount | aligner/aligner.go:836-841 | removing a `Del` edit lowers the number of `Del` edits |
| Greek.AddNoDel | aligner/aligner.go:681-686 | adding a non-`Del` edit keeps the number of `Del` edits |
| Greek.EqCandidateDecreases | aligner/greek.go:34-40 | an Eq step removes a `Del` edit |
| Greek.SubCandidateDecreases | aligner/greek.go:66-72 | a Sub step with a non-empty source group removes a `Del` edit |
| Greek.NextDecreases | aligner/greek.go:16-78 | every successor has fewer `Del` edits, so the search ends |
| Greek.UniqueUser | aligner/aligner.go:598-600 | in a partition each word has a single edit using it |
| Greek.SingleUse | aligner/aligner.go:598-600 | in a partition a used word is used exactly once |
| Greek.ReplaceUsers | aligner/greek.go:66-72 | replacing the users of some words by one edit that uses each once keeps every word's use count |
| Greek.EqCandidateCoverage | aligner/greek.go:34-40 | an Eq step keeps every word's use count |
| Greek.SubCandidateCoverage | aligner/greek.go:66-72 | a Sub step over groups without repeats keeps every word's use count |
| Greek.NoDupCount | aligner/greek.go:121-163 | in a sequence without repeats each word occurs once or not at all |
| Greek.CountOneNoDup | aligner/greek.go:121-163 | a sequence where no word occurs twice has no repeats |
| Greek.TwoPositionsCount | aligner/greek.go:121-163 | a word at two positions occurs at least twice |
| Greek.SubGroupsFromAlignment | aligner/greek.go:49-62 | each source group is non-empty and made of deleted words |
| Greek.SubGroupsNoDup | aligner/greek.go:49-62 | in a partition a source group and a target group together have no repeats, and the target group is made of inserted words |
| Greek.NextCoverage | aligner/greek.go:16-78 | every successor of a partition uses every word exactly as often |
| Greek.NextPartitioned | aligner/greek.go:16-78 | every successor of a partition is a partition |
| Greek.LegacyMatchImpliesPackageMatch | greek.go:15-113 | whatever the root copy's exact text test pairs, the package copy's punctuation-stripping test pairs too |
| Driver.BestFrom | aligner/aligner.go:761-771 | the candidate loop, which replaces its choice only on a strictly higher score, ends on the first highest score |
| Driver.FirstBest | aligner/aligner.go:761-771 | starting from -Inf, the loop settles on the first candidate with the highest score |
| Driver.FirstMaxUnique | aligner/aligner.go:765-771 | the first highest score is at a single index |
| Driver.Scores | aligner/aligner.go:765-766 | one score per candidate, in order |
| Driver.Align | aligner/aligner.go:753-778 | `Align` fails exactly when features and weights differ in length, with that message; on success `next` has nothing to propose from the result |
| Driver.AlignStops | aligner/aligner.go:757-760 | an alignment is returned unchanged exactly when `next` proposes nothing |
| Driver.AlignPreservesDelCount | aligner/aligner.go:753-778 | the search never adds `Del` edits |
| Driver.AlignPicksBest | aligner/aligner.go:753-778 | one step continues from a successor whose score no other successor exceeds |
| Driver.AlignResult | aligner/aligner.go:753-778 | the result has no `Del` left, or has no matching pair and either no `Ins` left or k <= 0 |
| Driver.AlignCoverage | aligner/aligner.go:753-778 | from a partition of the problem's words the search ends at a partition with every word used as often as before |
| Driver.AlignIdempotent | aligner/aligner.go:753-778 | aligning a result again changes nothing |
| Driver.SinglePairNext | aligner/greek.go:16-45 | a lone matching `Del`/`Ins` pair has the single successor made of their `Eq` |
| Driver.AlignSinglePair | aligner/aligner.go:753-778 | a lone matching `Del`/`Ins` pair is aligned into their `Eq`, whatever the features and weights |
| Vectors.Equals | vectors.go:7-17 | `Equals` holds exactly when the vectors have the same length and entries |
| Vectors.Sum | vectors.go:65-67 | `Sum` adds entry by entry over the first vector's length |
| Vectors.Diff | vectors.go:61-63 | `Diff` subtracts entry by entry over the first vector's length |
| Vectors.DiffUndoesSum | vectors.go:61-67 | subtracting what was added gives the vector back |
| Vectors.SumUndoesDiff | vectors.go:61-67 | adding what was subtracted gives the vector back |
| Vectors.SumCommutative | vectors.go:65-67 | `Sum` of equal-length vectors is commutative |
| Vectors.DiffSelfIsZero | vectors.go:61-67 | a vector minus itself is zero, and adding zero changes nothing |
| Vectors.ScaleUnitAndZero | vectors.go:69-75 | scaling by 1 changes nothing and scaling by 0 gives zeros |
| Vectors.ScaleLaws | vectors.go:61-75 | scaling twice multiplies the factors, and scaling distributes over `Diff` |
| Vectors.Norm2Unique | vectors.go:31-37 | a vector has one Euclidean norm |
| Vectors.ZerosNorm | vectors.go:31-37 | a zero vector has norm 0 |
| Vectors.SquaredNormScale | vectors.go:31-37 | scaling by k multiplies the sum of squares by k squared |
| Vectors.Norm2Examples | vectors/vectors_test.go:99-115 | the norms of [], [1], [2] are 0, 1, 2, and that of [4, 2] is the root of 20 |
| Vectors.NormalizeIsScale | vectors.go:19-29 | a zero norm is replaced by 1 and leaves the vector as it is; otherwise `Normalize` divides by the norm |
| Vectors.NormalizeToUnit | vectors.go:19-37 | with the Euclidean norm a non-zero vector becomes a unit vector, and a zero vector is left as it is |
| Vectors.Avg | vectors.go:39-51 | `Avg` of no vectors is empty, otherwise it has the first vector's length |
| Vectors.ColumnSumConstant | vectors.go:39-51 | a column of n equal values sums to n times the value |
| Vectors.AvgConstant | vectors/vectors_test.go:82-97 | the average of copies of one vector is that vector |
| Vectors.ColumnSumAppend | vectors.go:39-51 | column sums are additive over lists put together |
| Vectors.AvgHalves | vectors.go:39-51 | the average of two equally long lists is the midpoint of their averages |
| Vectors.Examples | vectors/vectors_test.go:27-137 | the tabulated cases of `Sum`, `Diff`, `Scale`, `Avg` and `Normalize` with a zero norm |
| Learner.SwapPermutes | main.go:997 | a swap permutes the sequence |
| Learner.ShuffleFromPermutes | main.go:994-1000 | every stage of the shuffle loop permutes the sequence |
| Learner.ShufflePermutes | main.go:994-1000 | `shuffle` permutes the examples, keeping the multiset of elements |
| Learner.StayDraws | main.go:994-1000 | always drawing the last position is a valid draw sequence |
| Learner.ShuffleFromStays | main.go:994-1000 | with those draws every stage of the loop changes nothing |
| Learner.ShuffleStays | main.go:994-1000 | with those draws `shuffle` changes nothing |
| Learner.UpdateFixedOnGold | main.go:937-939 | when the prediction's features equal the gold's, the update leaves the weights unchanged |
| Learner.PassFixedOnGold | main.go:934-941 | when every prediction matches the gold's features, a pass leaves the weights unchanged |
| Learner.DotSum | main.go:939 | the dot product distributes over `Sum` |
| Learner.DotScaleSelf | main.go:938-939 | a scaled vector dotted with itself is the factor times its squared norm |
| Learner.DotDiff | main.go:938 | the dot product distributes over `Diff` |
| Learner.UpdateGap | main.go:939 | moving the weights by rate times d raises their dot product with d by rate times the squared norm of d |
| Learner.ScoreGap | main.go:938 | the score gap between two alignments is the weights dotted with the difference of their `phi` |
| Learner.GapShift | main.go:938-939 | an update by rate times that difference widens the gap by rate times its squared norm |
| Learner.UpdateFavoursGold | main.go:937-939 | after an update the gold alignment's lead over the prediction grows by the rate times the squared norm of their feature difference |
| Learner.Train | main.go:926-946 | N epochs produce N weight vectors, each with one weight per feature |
| Learner.TrainFixedOnGold | main.go:930-946 | an epoch where every prediction already has the gold's features only normalizes the weights |
| Learner.RunPass | main.go:934-941 | the inner loop computes the pass over the shuffled examples |
| Learner.TrainStep | main.go:930-946 | each epoch decays the rate, shuffles, runs a pass, normalizes, and hands its weights to the next epoch |
| Learner.EpochsColumnsDefined | vectors.go:39-51 | epochs of one length can be averaged, and their average has that length |
| Learner.Learn | main.go:914-951 | `learn` returns the average of the epochs' weights from epoch N0 on: one weight per feature when N0 < N, and empty when N0 = N or N <= 0 |
| Json.RemoveAt | aligner/aligment-json.go:31-34 | `removeAt` drops the element at i and keeps the others in order |
| Json.RemoveAtMultiset | aligner/aligment-json.go:31-34 | `removeAt` removes exactly one copy of the dropped element |
| Json.RemoveAtInsert | aligner/aligment-json.go:31-34 | removing an element just inserted gives the sequence back |
| Json.Ids | aligner/aligment-json.go:47-57 | the IDs of the words, in order |
| Json.ToJSONEdit | aligner/aligment-json.go:42-57 | `ToJSONEdit` tags the edit's kind and lists its source and target word IDs |
| Json.KindTagInjective | aligner/aligment-json.go:42-57 | two edits get the same tag exactly when they are of the same kind |
| Json.ExplodeSideKeys | aligner/aligment-json.go:22-27 | one exploded map is keyed by exactly the IDs of its side |
| Json.ExplodeSideValue | aligner/aligment-json.go:22-27 | an ID's entry comes from its last position: that side without it, and the other side |
| Json.ExplodeSideEntries | aligner/aligment-json.go:22-27 | each entry keeps the kind and the other side, and lists its side minus one copy of its key |
| Json.LastIndex | aligner/aligment-json.go:22-27 | an ID of a side has a last position |
| Json.ExplodeSpec | aligner/aligment-json.go:18-29 | `Explode` keys the left map by the source IDs and the right map by the target IDs; each entry keeps the kind, lists its own side minus its key, and the other side in full |
| Json.ExplodeDistinct | aligner/aligment-json.go:18-29 | with distinct source IDs the entry of the j-th ID is the edit with that ID removed |
| Json.FirstWins | aligner/aligment-json.go:66-75 | merging into a map adds the missing keys and keeps every existing entry |
| Json.ExplodeKeys | aligner/aligment-json.go:18-29 | each exploded map is keyed by exactly the IDs of its side |
| Json.ToJSONEditsStep | aligner/aligment-json.go:62-76 | each edit's exploded maps are merged into the maps built so far |
| Json.ToJSONEditsKeys | aligner/aligment-json.go:59-78 | the left map is keyed by exactly the source IDs of all edits, the right map by exactly their target IDs |
| Json.ToJSONEditsFirst | aligner/aligment-json.go:59-78 | a key holds the entry from the first edit, in iteration order, that has it on that side |
| Json.MergeAlignments | aligner/aligment-json.go:80-92 | the merged alignment holds exactly the edits of both, with multiplicities added |
| Gold.CanGetEdit | main.go:288-294 | a unit forms an edit exactly when both sides are non-empty or the shape is one word against none, or none against one |
| Gold.GetEditFromTu | main.go:346-357 | `getWords` of the built edit gives back the two word lists |
| Gold.GetEditFromTuKind | main.go:320-322 | the edit is a `Del` for one word against none, an `Ins` for none against one, an `Eq` for one against one with equal text, and a `Sub` otherwise |
| Gold.GetEditFromWords | main.go:388-404 | an edit is rebuilt from its word lists exactly when it is canonical: an `Eq` of equal texts, or a `Sub` no other kind covers |
| Gold.GetEditFromTuCanonical | main.go:346-357 | every edit built from a unit is canonical |
| Gold.AddWord | main.go:299-316 | a word fails exactly when it would open a new problem without a source tag, with the reason "AA" |
| Gold.FileWord | main.go:310-315 | a `HOM` word is filed among the source words under its ID, a `PARA` word among the target words, and nothing else changes |
| Gold.GetProblems | main.go:296-318 | a failed grouping reports "AA" |
| Gold.FiledIdsAppend | main.go:310-315 | one more word adds its ID to its problem's side, and only there |
| Gold.ProblemIdsAppend | main.go:298-309 | one more word adds its problem ID |
| Gold.SideOfStep | main.go:310-315 | filing one more word keeps a side equal to the filed words |
| Gold.FiledHasProblem | main.go:298-315 | only a problem that some word belongs to has filed words |
| Gold.NewSide | main.go:303-307 | a new problem starts with empty sides |
| Gold.FileWordGrouped | main.go:310-315 | the problem a word goes to keeps the grouping promise |
| Gold.OtherGrouped | main.go:310-315 | the other problems keep it too |
| Gold.AddWordGrouped | main.go:298-316 | one iteration keeps the grouping promise |
| Gold.GetProblemsGrouped | main.go:296-318 | the result has one problem per chant and verse that some word has, named after it, with an empty gold alignment and exactly its `HOM` words as sources and its `PARA` words as targets, keyed by word ID |
| Gold.BadOpenerStep | main.go:298-304 | one more word adds a failure exactly when it opens a problem without a source tag |
| Gold.GetProblemsFails | main.go:296-318 | the grouping fails exactly when a word that opens a problem has no source tag |
| Gold.OpensPrefix | main.go:298-302 | whether an earlier word opens a problem does not depend on later words |
| Gold.LastOpens | main.go:298-302 | the last word opens a problem exactly when no earlier word has its problem ID |

## Left out

- I/O and configuration are not modelled:
  - `LoadDB`, `loadDB`, `LoadVoc`, `LoadScholie` and `LoadScholieDict`;
  - `loadGoldStandard`, `getWordsFromTuv` and the `getID` regular expression;
  - `main`, the command line, timing and printing, and the `String` methods.

  They read spreadsheets, TMX and JSON through external libraries. The model
  receives their results as values.
- `loadGoldStandard`: only the pieces it calls are modelled. Those are
  `canGetEdit`, `getEditFromTu` and `getProblems`. The loop that adds each
  edit to `problems[e.getProblemID()]` is not modelled.
- The score cache and `initCache` are not modelled. `distanceOnField`
  (aligner.go:383), `EqEquivTermDistance` (aligner.go:311) and `VocDistance`
  (aligner.go:341) read the cache by edit pointer, and an edit's words never
  change, so a hit returns what a fresh computation would. `ScholieDistance` only writes it:
  its read is commented out. The commentary prefix cache is modelled, and its
  fault is listed under "## Findings".
- The commentary trie is not modelled. Its `PrefixSearch` and `Find` are
  the `prefixSearch` and `find` collaborators of `Env`.
- The Levenshtein distance, Unicode normalisation, `ToLower` and
  `RemovePunctuation` are not modelled. They are parameters, and `LevAxioms`
  states the only facts used about the distance.
- Floating point is not modelled: the features, weights and scores are exact
  reals. Rounding, infinities other than the explicit +Inf/-Inf starts, and
  NaN propagation beyond `None` are out of scope.
- Vectors.Sum / Vectors.Diff: require the second vector to be at least as
  long as the first. Go's `vectOp` indexes `v2[i]` for every index of `v1`
  and panics with an index out of range otherwise (vectors.go:53-58); the
  panic is not modelled.
- Vectors.Avg: requires every vector to be at least as long as the first. Go
  indexes `w[i]` for every index of the first vector and panics otherwise
  (vectors.go:44-47); the panic is not modelled.
- Scoring.EditScore: requires at least as many weights as features. Go's
  `Score` indexes `ws[i]` for every feature and panics otherwise
  (aligner/aligner.go:521-528); the panic is not modelled.
- Alignments.EditsAccuracy: requires a non-empty reference alignment. On an
  empty one Go divides 0 by 0 and returns NaN (aligner/aligner.go:660-669,
  and `editsAccuracy` in main.go:154-162); that NaN is not modelled.
- Vectors.Norm2: the square root is not computed. A norm is a parameter, and
  `IsNorm2` states when it is the Euclidean norm.
- Vectors.NormalizeToUnit: this does not show that only the zero vector has a
  zero norm. Positivity of a sum of squares would need non-linear arithmetic
  that the solver does not close reliably.
- Randomness is not modelled. `shuffle` takes a sequence of draws meeting the
  contract of `Intn`.
- Learner.Learn: the aligner and the norm are parameters, so the result is
  stated in terms of them.
- Learner.Learn: requires 0 <= N0 <= max(N, 0). Outside that range Go's
  `epochs[N0:]` panics, and the panic is not modelled.
- Learner.Learn: `shuffle` permutes the caller's `trainingProblems` slice in
  place. The model works on values, so the caller's slice is not changed.
- Dead code is not modelled:
  - `subDist` and `normalizedDist`;
  - `multiMin`;
  - the `mutex` and the `Scholie` type;
  - the commented-out `removeEditWithWords`.

  Nothing calls them.
- `ScholieDistanceExact` is not modelled. Nothing in the core calls it, and
  the root package's `ScholieDistance` has the same shape and is modelled as
  `RootScholieDistance`.
- The root package's features are modelled separately. Its `LemmaDistance`,
  `TagDistance` and `LexicalSimilarity` return `1 - levenshteinDistance(...)`
  with no division by a length (`RootOnField`). It has no `distanceOnField`
  and no cache. Its `hasSameMeaning` compares meanings verbatim
  (`RootHasSameMeaning`). Its `MaxDistance` combines five features and has
  no `EqEquivTermDistance` (`RootMaxDistance`). Its `EditType` is the same
  table as the package's.
- Driver.Align: the search assumes every candidate score is a real number.
  In Go a NaN score fails `score > maxScore` and that candidate is skipped.
  Only when every candidate scores NaN does `maxAlign` stay the zero
  `Alignment`; Go then recurses on it and returns it.
- `clone` is the identity on values, and `CopyArray` is too. Edits are values
  here and are never shared.
- Json.MergeAlignments: Go's map deduplicates identical edit pointers. Here
  two alignments put together keep both copies of an edit that occurs in
  both.
- `Alignments.Remove` removes by value, while Go removes by pointer. The two
  agree whenever no edit value occurs twice, and `PartitionedEditsDistinct`
  shows that a partition has no such repeats.
- `Edits.MatchesWord`: for a `Sub`, the source's scan for a word with the same
  ID that equals the given word is written as plain membership. The two are
  the same test.
- Field distances divide by the UTF-8 byte length (Go `len`), not the
  character count. The root `ScholieDistance` returns 0 when there is no
  entry and uses the raw distance. `equalSub` is a containment test, not an
  equality.
- The aligner tests in `aligner/aligner_test.go` call a different API, with
  features built from a dictionary or a trie. Their expectations for field
  distances, the vocabulary feature and the commentary feature are lemmas.
  The commentary test's rows hold only through the prefix cache as written,
  as `ScholieTestRowsAsWritten` shows (see "## Findings").

## Findings

| source | as written | input that shows it | evidently intended | confidence | as-written member | corrected member |
|---|---|---|---|---|---|---|
| aligner/aligner.go:188-206 | On a hit, `getScholieEntries` takes the cached list as trie keys and calls `Find` on each entry. The cache holds the commentary found on the earlier call, not keys, and the new result overwrites it. | The text "x" has the single trie key "k", whose commentary is ["c"]. The edit maps "x" to "c". The first `ScholieDistance` scores 1. The second finds no key "c" and scores 0 (`CachedSecondLookup`, `CachedScholieDistanceDiffers`). `TestScholieDistance` (aligner/aligner_test.go:144-175) runs into the same path. Its rows 3 and 4 are targets equal to a commentary entry of "αειδε", and it expects 0 for both: the values of the cache as written (`ScholieTestRowsAsWritten`). | A hit returns the cached commentary, so every lookup of a text gives the same entries (`StoredScholieEntriesRun`). The feature is one minus the least distance to an entry. Row 2 of the same test, a target at distance 0.2, scores 0.8, so an exact match (distance 0) should score 1, not 0 (`ScholieTestRowsUncached`). `ScholieDistance` scores on `ScholieEntries`, which is what this cache returns. | medium: the only test of the feature expects the as-written values; not executed | Features.CachedScholieEntries | Features.StoredScholieEntries |
