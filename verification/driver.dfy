/** The greedy search `Align`: while the aligner proposes successors, move to
    the first successor with the highest score, and stop at an alignment with
    no successor. The only aligner of the repository is the Greek one, so the
    search is specialised to `Greek.Next`. */
module Driver {
  import opened Base
  import opened Words
  import opened Edits
  import opened Alignments
  import opened Scoring
  import opened Greek

  /** The first index holding the largest value of s. */
  ghost predicate IsFirstMax(s: seq<real>, i: int)
  {
    0 <= i < |s| &&
    (forall j :: 0 <= j < |s| ==> s[j] <= s[i]) &&
    (forall j :: 0 <= j < i ==> s[j] < s[i])
  }

  /** The scan of the candidate loop from index j on, with b the index kept so
      far. A later index replaces b only when its score is strictly greater. */
  function BestFrom(s: seq<real>, j: nat, b: nat): (r: nat)
    requires b < j <= |s|
    requires forall i :: 0 <= i < j ==> s[i] <= s[b]
    requires forall i :: 0 <= i < b ==> s[i] < s[b]
    ensures IsFirstMax(s, r)
    decreases |s| - j
  {
    if j == |s| then b
    else if s[j] > s[b] then BestFrom(s, j + 1, j)
    else BestFrom(s, j + 1, b)
  }

  /** The index the candidate loop settles on: the running maximum starts
      below every real score, so the first candidate is always taken, and
      later ones only on a strict improvement. */
  function FirstBest(s: seq<real>): (r: nat)
    requires |s| > 0
    ensures IsFirstMax(s, r)
  {
    BestFrom(s, 1, 0)
  }

  /** There is only one first maximum, so the scan's answer is determined by
      the scores alone. */
  lemma FirstMaxUnique(s: seq<real>, i: int, j: int)
    requires IsFirstMax(s, i) && IsFirstMax(s, j)
    ensures i == j
  {
    assert s[j] <= s[i] && s[i] <= s[j];
  }

  /** The scores of the candidates, in the order the aligner produced them. */
  function Scores(cands: seq<Alignment>, fs: seq<Feature>, ws: seq<real>): (s: seq<real>)
    requires |ws| >= |fs|
    ensures |s| == |cands|
  {
    seq(|cands|, i requires 0 <= i < |cands| => AlignmentScore(cands[i], fs, ws))
  }

  /** `Align`. The search terminates because every successor has fewer `Del`
      edits than its origin. */
  function Align(v: Variant, a: Alignment, fs: seq<Feature>, ws: seq<real>, k: int): (r: Result<Alignment>)
    ensures r.Err? <==> |fs| != |ws|
    ensures r.Err? ==> r.reason == "features and weights len mismatch"
    ensures r.Ok? ==> Next(v, r.value, k) == []
    decreases DelCount(a)
  {
    if |fs| != |ws| then Err("features and weights len mismatch")
    else
      var cands := Next(v, a, k);
      if |cands| == 0 then Ok(a)
      else
        NextDecreases(v, a, k);
        Align(v, cands[FirstBest(Scores(cands, fs, ws))], fs, ws, k)
  }

  /** An alignment without successors is returned unchanged. */
  lemma AlignStops(v: Variant, a: Alignment, fs: seq<Feature>, ws: seq<real>, k: int)
    requires |fs| == |ws|
    ensures Next(v, a, k) == [] <==> Align(v, a, fs, ws, k) == Ok(a)
  {
    if Next(v, a, k) != [] {
      var cands := Next(v, a, k);
      var c := cands[FirstBest(Scores(cands, fs, ws))];
      assert c in cands;
      NextDecreases(v, a, k);
      AlignPreservesDelCount(v, c, fs, ws, k);
    }
  }

  /** The search never adds `Del` edits. */
  lemma {:induction false} AlignPreservesDelCount(v: Variant, a: Alignment, fs: seq<Feature>, ws: seq<real>, k: int)
    requires |fs| == |ws|
    ensures DelCount(Align(v, a, fs, ws, k).value) <= DelCount(a)
    decreases DelCount(a)
  {
    var cands := Next(v, a, k);
    if |cands| > 0 {
      var c := cands[FirstBest(Scores(cands, fs, ws))];
      assert c in cands;
      NextDecreases(v, a, k);
      AlignPreservesDelCount(v, c, fs, ws, k);
    }
  }

  /** One step of the search: from an alignment with successors, it continues
      from a successor whose score no other successor exceeds. */
  lemma AlignPicksBest(v: Variant, a: Alignment, fs: seq<Feature>, ws: seq<real>, k: int) returns (c: Alignment)
    requires |fs| == |ws| && Next(v, a, k) != []
    ensures c in Next(v, a, k)
    ensures forall d :: d in Next(v, a, k) ==> AlignmentScore(d, fs, ws) <= AlignmentScore(c, fs, ws)
    ensures Align(v, a, fs, ws, k) == Align(v, c, fs, ws, k)
  {
    var cands := Next(v, a, k);
    var s := Scores(cands, fs, ws);
    var i := FirstBest(s);
    c := cands[i];
    forall d | d in cands ensures AlignmentScore(d, fs, ws) <= AlignmentScore(c, fs, ws) {
      var j :| 0 <= j < |cands| && cands[j] == d;
      assert s[j] <= s[i];
    }
  }

  /** Where the search stops: either no `Del` edit is left, or no `Del`/`Ins`
      pair has matching text and no substitution can be formed. */
  lemma AlignResult(v: Variant, a: Alignment, fs: seq<Feature>, ws: seq<real>, k: int)
    requires |fs| == |ws|
    ensures var r := Align(v, a, fs, ws, k).value;
      DelCount(r) == 0 || (!HasEqPair(v, DelWords(r), InsWords(r)) && (InsCount(r) == 0 || k <= 0))
  {
    NextEmpty(v, Align(v, a, fs, ws, k).value, k);
  }

  /** Starting from a partition of the problem's words, the search keeps every
      word in exactly as many edits as before and ends at a partition. */
  lemma {:induction false} AlignCoverage(v: Variant, a: Alignment, fs: seq<Feature>, ws: seq<real>, k: int)
    requires |fs| == |ws| && Partitioned(a)
    ensures Partitioned(Align(v, a, fs, ws, k).value)
    ensures forall u :: CountIn(Align(v, a, fs, ws, k).value, u) == CountIn(a, u)
    decreases DelCount(a)
  {
    var cands := Next(v, a, k);
    if |cands| > 0 {
      var c := cands[FirstBest(Scores(cands, fs, ws))];
      assert c in cands;
      NextDecreases(v, a, k);
      NextPartitioned(v, a, k, c);
      forall u ensures CountIn(c, u) == CountIn(a, u) {
        NextCoverage(v, a, k, c, u);
      }
      AlignCoverage(v, c, fs, ws, k);
      assert Align(v, a, fs, ws, k) == Align(v, c, fs, ws, k);
    }
  }

  /** Aligning an alignment the search produced changes nothing. */
  lemma AlignIdempotent(v: Variant, a: Alignment, fs: seq<Feature>, ws: seq<real>, k: int)
    requires |fs| == |ws|
    ensures Align(v, Align(v, a, fs, ws, k).value, fs, ws, k) == Align(v, a, fs, ws, k)
  {
    AlignStops(v, Align(v, a, fs, ws, k).value, fs, ws, k);
  }

  /** A lone deleted word and a lone inserted word with matching text have
      one successor: the alignment made of their `Eq` edit alone. */
  lemma SinglePairNext(v: Variant, x: Word, y: Word, k: int)
    requires EqMatch(v, x, y)
    ensures Next(v, [Del(x), Ins(y)], k) == [[Eq(x, y)]]
  {
    var a := [Del(x), Ins(y)];
    assert a[1..] == [Ins(y)] && a[1..][1..] == [];
    assert DelWords(a[1..][1..]) == [] && InsWords(a[1..][1..]) == [];
    assert DelWords(a[1..]) == [] && InsWords(a[1..]) == [y];
    assert DelWords(a) == [x] && InsWords(a) == [y];
    var p := NotIn([Del(x), Ins(y)]);
    assert KeepIf(a[1..][1..], p) == [];
    assert KeepIf(a[1..], p) == [];
    assert KeepIf(a, p) == [];
    assert EqCandidate(a, x, y) == [Eq(x, y)];
    assert EqRowPairs(v, x, [y]) == [(x, y)];
    assert EqPairs(v, [x], [y]) == [(x, y)];
    assert HasEqPair(v, DelWords(a), InsWords(a));
    NextIsEqPass(v, a, k);
  }

  /** A lone deleted word and a lone inserted word with matching text end up
      in one `Eq` edit, whatever the features and weights. */
  lemma AlignSinglePair(v: Variant, x: Word, y: Word, fs: seq<Feature>, ws: seq<real>, k: int)
    requires |fs| == |ws| && EqMatch(v, x, y)
    ensures Align(v, [Del(x), Ins(y)], fs, ws, k) == Ok([Eq(x, y)])
  {
    var e := [Eq(x, y)];
    SinglePairNext(v, x, y, k);
    assert FirstBest(Scores([e], fs, ws)) == 0;
    assert DelWords(e) == [];
    AlignStops(v, e, fs, ws, k);
  }
}
