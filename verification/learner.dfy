/** The averaged-perceptron training loop `learn` of the command-line program:
    weights start at one, every epoch shuffles the training examples, moves
    the weights towards the gold alignment's features and away from the
    predicted alignment's, and normalizes; the result is the mean of the
    epochs' weights from a given epoch on. The random generator is replaced by
    explicit draws, the aligner and the norm by function parameters. */
module Learner {
  import opened Alignments
  import opened Scoring
  import opened Vectors
  import opened Gold

  /** The aligner used during training, given the current weights. */
  type AlignAlg = (Problem, Vector) -> Alignment

  // ---------------------------------------------------------------------------
  // shuffle

  function Swap<T>(s: seq<T>, i: nat, j: nat): (r: seq<T>)
    requires i < |s| && j < |s|
    ensures |r| == |s|
  {
    s[i := s[j]][j := s[i]]
  }

  lemma SwapPermutes<T>(s: seq<T>, i: nat, j: nat)
    requires i < |s| && j < |s|
    ensures multiset(Swap(s, i, j)) == multiset(s)
  {
    var t := s[i := s[j]];
    assert multiset(t) == multiset(s) - multiset{s[i]} + multiset{s[j]};
    assert multiset(t[j := s[i]]) == multiset(t) - multiset{t[j]} + multiset{s[i]};
  }

  /** The draws of one shuffle: the k-th call of `Intn(n)` happens with
      n = |vals| - k and returns a value below n. */
  predicate ValidDraws(draws: seq<int>, n: nat)
  {
    |draws| == n && forall k :: 0 <= k < n ==> 0 <= draws[k] < n - k
  }

  /** The shuffle loop from the point where n positions remain: position n-1
      is swapped with the drawn position. */
  function ShuffleFrom<T>(s: seq<T>, draws: seq<int>, n: nat): (r: seq<T>)
    requires n <= |s| && ValidDraws(draws, |s|)
    ensures |r| == |s|
    decreases n
  {
    if n == 0 then s
    else ShuffleFrom(Swap(s, n - 1, draws[|s| - n]), draws, n - 1)
  }

  /** `shuffle`: the Fisher-Yates loop over the whole sequence. */
  function Shuffle<T>(vals: seq<T>, draws: seq<int>): (r: seq<T>)
    requires ValidDraws(draws, |vals|)
    ensures |r| == |vals|
  {
    ShuffleFrom(vals, draws, |vals|)
  }

  lemma {:induction false} ShuffleFromPermutes<T>(s: seq<T>, draws: seq<int>, n: nat)
    requires n <= |s| && ValidDraws(draws, |s|)
    ensures multiset(ShuffleFrom(s, draws, n)) == multiset(s)
    decreases n
  {
    if n > 0 {
      SwapPermutes(s, n - 1, draws[|s| - n]);
      ShuffleFromPermutes(Swap(s, n - 1, draws[|s| - n]), draws, n - 1);
    }
  }

  /** Shuffling only reorders: the result holds the same examples, each as
      often as before. */
  lemma ShufflePermutes<T>(vals: seq<T>, draws: seq<int>)
    requires ValidDraws(draws, |vals|)
    ensures multiset(Shuffle(vals, draws)) == multiset(vals)
  {
    ShuffleFromPermutes(vals, draws, |vals|);
  }

  /** The draws that swap every position with itself. */
  function StayDraws(n: nat): (d: seq<int>)
    ensures ValidDraws(d, n)
  {
    seq(n, k => n - 1 - k)
  }

  lemma {:induction false} ShuffleFromStays<T>(s: seq<T>, n: nat)
    requires n <= |s|
    ensures ShuffleFrom(s, StayDraws(|s|), n) == s
  {
    if n > 0 {
      assert StayDraws(|s|)[|s| - n] == n - 1;
      assert Swap(s, n - 1, n - 1) == s;
      ShuffleFromStays(s, n - 1);
    }
  }

  /** When every draw picks the position being filled, nothing moves. */
  lemma ShuffleStays<T>(vals: seq<T>)
    ensures Shuffle(vals, StayDraws(|vals|)) == vals
  {
    ShuffleFromStays(vals, |vals|);
  }

  // ---------------------------------------------------------------------------
  // the perceptron update

  /** One training step: w plus R times the difference between the gold
      alignment's feature vector and the predicted alignment's. */
  function Update(w: Vector, rate: real, ex: GoldStandard, fs: seq<Feature>, alignAlg: AlignAlg): (r: Vector)
    requires |w| == |fs|
    ensures |r| == |fs|
  {
    var predicted := alignAlg(ex.problem, w);
    Sum(w, Scale(Diff(Phi(ex.gold, fs), Phi(predicted, fs)), rate))
  }

  /** The inner loop over the examples of one epoch, in the given order. */
  function Pass(w: Vector, rate: real, exs: seq<GoldStandard>, fs: seq<Feature>, alignAlg: AlignAlg): (r: Vector)
    requires |w| == |fs|
    ensures |r| == |fs|
    decreases |exs|
  {
    if |exs| == 0 then w
    else Pass(Update(w, rate, exs[0], fs, alignAlg), rate, exs[1..], fs, alignAlg)
  }

  /** Every example predicted with the gold alignment's feature vector. */
  ghost predicate PredictsGold(w: Vector, exs: seq<GoldStandard>, fs: seq<Feature>, alignAlg: AlignAlg)
  {
    forall j :: 0 <= j < |exs| ==> Phi(alignAlg(exs[j].problem, w), fs) == Phi(exs[j].gold, fs)
  }

  /** A correct prediction leaves the weights unchanged. */
  lemma UpdateFixedOnGold(w: Vector, rate: real, ex: GoldStandard, fs: seq<Feature>, alignAlg: AlignAlg)
    requires |w| == |fs|
    requires Phi(alignAlg(ex.problem, w), fs) == Phi(ex.gold, fs)
    ensures Update(w, rate, ex, fs, alignAlg) == w
  {
    var g := Phi(ex.gold, fs);
    DiffSelfIsZero(g);
    ScaleUnitAndZero(g);
    assert Scale(Zeros(|g|), rate) == Zeros(|g|);
    DiffSelfIsZero(w);
  }

  /** An epoch in which every prediction is right leaves the weights as they
      were. */
  lemma {:induction false} PassFixedOnGold(w: Vector, rate: real, exs: seq<GoldStandard>, fs: seq<Feature>, alignAlg: AlignAlg)
    requires |w| == |fs| && PredictsGold(w, exs, fs, alignAlg)
    ensures Pass(w, rate, exs, fs, alignAlg) == w
  {
    if |exs| > 0 {
      UpdateFixedOnGold(w, rate, exs[0], fs, alignAlg);
      assert PredictsGold(w, exs[1..], fs, alignAlg) by {
        forall j | 0 <= j < |exs| - 1
          ensures Phi(alignAlg(exs[1..][j].problem, w), fs) == Phi(exs[1..][j].gold, fs)
        {
          assert exs[1..][j] == exs[j + 1];
        }
      }
      PassFixedOnGold(w, rate, exs[1..], fs, alignAlg);
    }
  }

  lemma {:induction false} DotSum(a: Vector, b: Vector, v: Vector)
    requires |a| == |b| == |v|
    ensures Dot(Sum(a, b), v) == Dot(a, v) + Dot(b, v)
  {
    if |v| > 0 {
      DotSum(a[1..], b[1..], v[1..]);
      assert Sum(a, b)[1..] == Sum(a[1..], b[1..]);
      Distribute(v[0], a[0], b[0]);
      assert Sum(a, b)[0] * v[0] == a[0] * v[0] + b[0] * v[0];
    }
  }

  lemma {:induction false} DotScaleSelf(d: Vector, rate: real)
    ensures Dot(Scale(d, rate), d) == rate * SquaredNorm(d)
  {
    if |d| > 0 {
      DotScaleSelf(d[1..], rate);
      ScaleTail(d, rate);
      var x := d[0];
      assert Scale(d, rate)[0] * x == rate * Sq(x);
      Distribute(rate, Sq(x), SquaredNorm(d[1..]));
    }
  }

  lemma {:induction false} DotDiff(w: Vector, g: Vector, p: Vector)
    requires |w| == |g| == |p|
    ensures Dot(w, Diff(g, p)) == Dot(w, g) - Dot(w, p)
  {
    if |w| > 0 {
      DotDiff(w[1..], g[1..], p[1..]);
      assert Diff(g, p)[1..] == Diff(g[1..], p[1..]);
      var x := Diff(g, p)[0];
      assert x == g[0] - p[0];
      assert w[0] * x == w[0] * g[0] - w[0] * p[0];
    }
  }

  /** Moving w by R times d raises its dot product with d by R |d|². */
  lemma UpdateGap(w: Vector, d: Vector, rate: real)
    requires |w| == |d|
    ensures Dot(Sum(w, Scale(d, rate)), d) == Dot(w, d) + rate * SquaredNorm(d)
  {
    DotSum(w, Scale(d, rate), d);
    DotScaleSelf(d, rate);
  }

  /** The score gap between two alignments is the dot product of the weights
      with the difference of their feature vectors. */
  lemma ScoreGap(a: Alignment, b: Alignment, fs: seq<Feature>, w: Vector)
    requires |w| == |fs|
    ensures AlignmentScore(a, fs, w) - AlignmentScore(b, fs, w) == Dot(w, Diff(Phi(a, fs), Phi(b, fs)))
  {
    ScoreIsDotPhi(a, fs, w);
    ScoreIsDotPhi(b, fs, w);
    DotDiff(w, Phi(a, fs), Phi(b, fs));
  }

  /** Moving the weights by R times the difference of two feature vectors
      widens the score gap between the two alignments by R times its squared
      norm. */
  lemma GapShift(a: Alignment, b: Alignment, fs: seq<Feature>, w: Vector, d: Vector, rate: real)
    requires |w| == |fs| && d == Diff(Phi(a, fs), Phi(b, fs))
    ensures AlignmentScore(a, fs, Sum(w, Scale(d, rate))) - AlignmentScore(b, fs, Sum(w, Scale(d, rate)))
      == AlignmentScore(a, fs, w) - AlignmentScore(b, fs, w) + rate * SquaredNorm(d)
  {
    ScoreGap(a, b, fs, w);
    ScoreGap(a, b, fs, Sum(w, Scale(d, rate)));
    UpdateGap(w, d, rate);
  }

  /** The perceptron step: the update raises the score of the gold alignment
      relative to the predicted one by R times the squared distance of their
      feature vectors. */
  lemma UpdateFavoursGold(w: Vector, rate: real, ex: GoldStandard, fs: seq<Feature>, alignAlg: AlignAlg)
    requires |w| == |fs|
    ensures var predicted := alignAlg(ex.problem, w);
      var d := Diff(Phi(ex.gold, fs), Phi(predicted, fs));
      AlignmentScore(ex.gold, fs, Update(w, rate, ex, fs, alignAlg)) - AlignmentScore(predicted, fs, Update(w, rate, ex, fs, alignAlg))
        == AlignmentScore(ex.gold, fs, w) - AlignmentScore(predicted, fs, w) + rate * SquaredNorm(d)
  {
    var predicted := alignAlg(ex.problem, w);
    var d := Diff(Phi(ex.gold, fs), Phi(predicted, fs));
    assert Update(w, rate, ex, fs, alignAlg) == Sum(w, Scale(d, rate));
    GapShift(ex.gold, predicted, fs, w, d, rate);
  }

  // ---------------------------------------------------------------------------
  // training

  function Ones(n: nat): (v: Vector)
    ensures |v| == n
  {
    seq(n, i => 1.0)
  }

  /** The draws of every epoch. */
  predicate ValidEpochDraws(draws: seq<seq<int>>, epochs: nat, n: nat)
  {
    |draws| >= epochs && forall e :: 0 <= e < epochs ==> ValidDraws(draws[e], n)
  }

  /** The weights after each of the remaining epochs, starting from weights w,
      rate R and the current order of the examples (the shuffle reorders the
      training slice itself, so each epoch shuffles the previous order). */
  function Train(w: Vector, rate: real, decay: real, order: seq<GoldStandard>, draws: seq<seq<int>>,
                 fs: seq<Feature>, alignAlg: AlignAlg, norm: Vector -> real, epochs: nat): (r: seq<Vector>)
    requires |w| == |fs| && ValidEpochDraws(draws, epochs, |order|)
    ensures |r| == epochs
    ensures forall e :: 0 <= e < epochs ==> |r[e]| == |fs|
    decreases epochs
  {
    if epochs == 0 then []
    else
      var rate' := decay * rate;
      var order' := Shuffle(order, draws[0]);
      var w' := Normalize(Pass(w, rate', order', fs, alignAlg), norm);
      [w'] + Train(w', rate', decay, order', draws[1..], fs, alignAlg, norm, epochs - 1)
  }

  /** Epochs in which the aligner reproduces every gold alignment at the
      current weights leave the weights fixed up to normalization. */
  lemma TrainFixedOnGold(w: Vector, rate: real, decay: real, order: seq<GoldStandard>, draws: seq<seq<int>>,
                         fs: seq<Feature>, alignAlg: AlignAlg, norm: Vector -> real)
    requires |w| == |fs| && ValidEpochDraws(draws, 1, |order|)
    requires PredictsGold(w, Shuffle(order, draws[0]), fs, alignAlg)
    ensures Train(w, rate, decay, order, draws, fs, alignAlg, norm, 1) == [Normalize(w, norm)]
  {
    PassFixedOnGold(w, decay * rate, Shuffle(order, draws[0]), fs, alignAlg);
  }

  /** The inner loop of `learn`: the examples visited one after the other in
      the current order. */
  method RunPass(w0: Vector, rate: real, order: seq<GoldStandard>, fs: seq<Feature>, alignAlg: AlignAlg)
    returns (w: Vector)
    requires |w0| == |fs|
    ensures w == Pass(w0, rate, order, fs, alignAlg)
  {
    w := w0;
    var j := 0;
    while j < |order|
      invariant 0 <= j <= |order| && |w| == |fs|
      invariant Pass(w0, rate, order, fs, alignAlg) == Pass(w, rate, order[j..], fs, alignAlg)
    {
      assert order[j..][1..] == order[j + 1..];
      w := Update(w, rate, order[j], fs, alignAlg);
      j := j + 1;
    }
  }

  /** One epoch of `Train` taken off the front. */
  lemma TrainStep(w: Vector, rate: real, decay: real, order: seq<GoldStandard>, draws: seq<seq<int>>,
                  fs: seq<Feature>, alignAlg: AlignAlg, norm: Vector -> real, epochs: nat)
    requires |w| == |fs| && epochs > 0 && ValidEpochDraws(draws, epochs, |order|)
    ensures ValidEpochDraws(draws[1..], epochs - 1, |order|)
    ensures var order' := Shuffle(order, draws[0]);
      var w' := Normalize(Pass(w, decay * rate, order', fs, alignAlg), norm);
      Train(w, rate, decay, order, draws, fs, alignAlg, norm, epochs)
        == [w'] + Train(w', decay * rate, decay, order', draws[1..], fs, alignAlg, norm, epochs - 1)
  {
    assert forall e :: 0 <= e < epochs - 1 ==> draws[1..][e] == draws[e + 1];
  }

  lemma EpochsColumnsDefined(epochs: seq<Vector>, n: nat)
    requires forall e :: 0 <= e < |epochs| ==> |epochs[e]| == n
    ensures ColumnsDefined(epochs)
    ensures |epochs| > 0 ==> |Avg(epochs)| == n
  {
  }

  /** `learn`: N epochs from weights of one, then the mean of the weights of
      the epochs from N0 on. A negative N runs no epoch. */
  method Learn(training: seq<GoldStandard>, N: int, N0: int, R0: real, decay: real, fs: seq<Feature>,
               alignAlg: AlignAlg, norm: Vector -> real, draws: seq<seq<int>>) returns (avg: Vector)
    requires 0 <= N0 <= (if N > 0 then N else 0)
    requires ValidEpochDraws(draws, if N > 0 then N else 0, |training|)
    ensures var epochs := Train(Ones(|fs|), R0, decay, training, draws, fs, alignAlg, norm, if N > 0 then N else 0);
      ColumnsDefined(epochs[N0..]) && avg == Avg(epochs[N0..])
    ensures N0 < N ==> |avg| == |fs|
    ensures N0 == N || N <= 0 ==> avg == []
  {
    var total: nat := if N > 0 then N else 0;
    ghost var spec := Train(Ones(|fs|), R0, decay, training, draws, fs, alignAlg, norm, total);
    var w := Ones(|fs|);
    var epochs: seq<Vector> := [];
    var order := training;
    var rate := R0;
    ghost var rest := draws;
    var i := 0;
    while i < total
      invariant 0 <= i <= total && |epochs| == i && |w| == |fs| && |order| == |training|
      invariant rest == draws[i..] && ValidEpochDraws(rest, total - i, |order|)
      invariant epochs + Train(w, rate, decay, order, rest, fs, alignAlg, norm, total - i) == spec
    {
      ghost var before := Train(w, rate, decay, order, rest, fs, alignAlg, norm, total - i);
      TrainStep(w, rate, decay, order, rest, fs, alignAlg, norm, total - i);
      assert rest[0] == draws[i];
      rate := decay * rate;
      order := Shuffle(order, draws[i]);
      w := RunPass(w, rate, order, fs, alignAlg);
      w := Normalize(w, norm);
      ghost var after := Train(w, rate, decay, order, rest[1..], fs, alignAlg, norm, total - i - 1);
      assert before == [w] + after;
      assert (epochs + [w]) + after == epochs + before;
      epochs := epochs + [w];
      assert rest[1..] == draws[i + 1..];
      rest := rest[1..];
      i := i + 1;
    }
    assert epochs == spec;
    EpochsColumnsDefined(spec[N0..], |fs|);
    avg := Avg(epochs[N0..]);
  }
}
