/** Linear scoring of edits and alignments, the feature vector Phi, and the
    score-based accuracy. A feature is any real-valued function of an edit;
    the additional data the source threads through every feature is folded
    into the function itself. */
module Scoring {
  import opened Base
  import opened Edits
  import opened Alignments

  type Feature = Edit -> real

  /** Sum of f over the edits of a (one iteration of the edit map). */
  function SumOf(a: Alignment, f: Edit -> real): real
  {
    if |a| == 0 then 0.0 else f(a[0]) + SumOf(a[1..], f)
  }

  lemma {:induction false} SumOfAppend(a: Alignment, b: Alignment, f: Edit -> real)
    ensures SumOf(a + b, f) == SumOf(a, f) + SumOf(b, f)
  {
    if |a| == 0 {
      assert a + b == b;
    } else {
      assert (a + b)[0] == a[0];
      assert (a + b)[1..] == a[1..] + b;
      SumOfAppend(a[1..], b, f);
    }
  }

  /** Summing over a map does not depend on its iteration order: any two
      orders of the same edits give the same sum. */
  lemma {:induction false} SumOfOrderFree(a: Alignment, b: Alignment, f: Edit -> real)
    requires multiset(a) == multiset(b)
    ensures SumOf(a, f) == SumOf(b, f)
    decreases |a|
  {
    if |a| > 0 {
      assert a[0] in multiset(b);
      var i :| 0 <= i < |b| && b[i] == a[0];
      var b' := b[..i] + b[i + 1..];
      RemoveAt(b, i);
      assert a == [a[0]] + a[1..];
      assert multiset(a[1..]) == multiset(b');
      SumOfOrderFree(a[1..], b', f);
      SumOfRemoveAt(b, i, f);
    }
  }

  lemma RemoveAt(b: Alignment, i: nat)
    requires i < |b|
    ensures multiset(b[..i] + b[i + 1..]) == multiset(b) - multiset{b[i]}
  {
    assert b == b[..i] + [b[i]] + b[i + 1..];
  }

  lemma SumOfRemoveAt(b: Alignment, i: nat, f: Edit -> real)
    requires i < |b|
    ensures SumOf(b, f) == f(b[i]) + SumOf(b[..i] + b[i + 1..], f)
  {
    assert b == b[..i] + [b[i]] + b[i + 1..];
    SumOfAppend(b[..i] + [b[i]], b[i + 1..], f);
    SumOfAppend(b[..i], [b[i]], f);
    SumOfAppend(b[..i], b[i + 1..], f);
  }

  /** Sums are linear in the summed function. */
  lemma {:induction false} SumOfLinear(a: Alignment, h: Edit -> real, c: real, f: Edit -> real, g: Edit -> real)
    requires forall e :: h(e) == c * f(e) + g(e)
    ensures SumOf(a, h) == c * SumOf(a, f) + SumOf(a, g)
  {
    if |a| > 0 {
      SumOfLinear(a[1..], h, c, f, g);
    }
  }

  /** `Score` of an edit: the weighted sum of its feature values. The source
      indexes the weights by feature position, so it needs at least as many
      weights as features. */
  function EditScore(fs: seq<Feature>, ws: seq<real>, e: Edit): real
    requires |ws| >= |fs|
  {
    if |fs| == 0 then 0.0 else ws[0] * fs[0](e) + EditScore(fs[1..], ws[1..], e)
  }

  function ScoreOf(fs: seq<Feature>, ws: seq<real>): Edit -> real
    requires |ws| >= |fs|
  {
    e => EditScore(fs, ws, e)
  }

  /** `Score` of an alignment: the sum of its edits' scores. */
  function AlignmentScore(a: Alignment, fs: seq<Feature>, ws: seq<real>): real
    requires |ws| >= |fs|
  {
    SumOf(a, ScoreOf(fs, ws))
  }

  /** `Phi`: the feature vector of an alignment, one summed value per feature. */
  function Phi(a: Alignment, fs: seq<Feature>): (v: seq<real>)
    ensures |v| == |fs|
  {
    seq(|fs|, i requires 0 <= i < |fs| => SumOf(a, fs[i]))
  }

  /** The dot product over the first |v| weights. */
  function Dot(ws: seq<real>, v: seq<real>): real
    requires |ws| >= |v|
  {
    if |v| == 0 then 0.0 else ws[0] * v[0] + Dot(ws[1..], v[1..])
  }

  /** The score of an alignment is linear in its feature vector: it is the dot
      product of the weights with Phi. */
  lemma {:induction false} ScoreIsDotPhi(a: Alignment, fs: seq<Feature>, ws: seq<real>)
    requires |ws| >= |fs|
    ensures AlignmentScore(a, fs, ws) == Dot(ws, Phi(a, fs))
  {
    if |fs| == 0 {
      SumOfLinear(a, ScoreOf(fs, ws), 0.0, ScoreOf(fs, ws), e => 0.0);
      ZeroSum(a);
    } else {
      ScoreIsDotPhi(a, fs[1..], ws[1..]);
      SumOfLinear(a, ScoreOf(fs, ws), ws[0], fs[0], ScoreOf(fs[1..], ws[1..]));
      assert Phi(a, fs)[1..] == Phi(a, fs[1..]);
    }
  }

  lemma {:induction false} ZeroSum(a: Alignment)
    ensures SumOf(a, e => 0.0) == 0.0
  {
    if |a| > 0 {
      ZeroSum(a[1..]);
    }
  }

  /** The empty alignment scores 0 and has the zero feature vector. */
  lemma ScoreEmpty(fs: seq<Feature>, ws: seq<real>)
    requires |ws| >= |fs|
    ensures AlignmentScore([], fs, ws) == 0.0
    ensures forall i :: 0 <= i < |fs| ==> Phi([], fs)[i] == 0.0
  {
  }

  /** Scores and feature vectors add up over disjoint parts of an alignment. */
  lemma ScoreAppend(a: Alignment, b: Alignment, fs: seq<Feature>, ws: seq<real>)
    requires |ws| >= |fs|
    ensures AlignmentScore(a + b, fs, ws) == AlignmentScore(a, fs, ws) + AlignmentScore(b, fs, ws)
    ensures forall i :: 0 <= i < |fs| ==> Phi(a + b, fs)[i] == Phi(a, fs)[i] + Phi(b, fs)[i]
  {
    SumOfAppend(a, b, ScoreOf(fs, ws));
    forall i | 0 <= i < |fs| ensures Phi(a + b, fs)[i] == Phi(a, fs)[i] + Phi(b, fs)[i] {
      SumOfAppend(a, b, fs[i]);
    }
  }

  /** Score and Phi do not depend on the iteration order of the edits. */
  lemma ScoreOrderFree(a: Alignment, b: Alignment, fs: seq<Feature>, ws: seq<real>)
    requires |ws| >= |fs|
    requires multiset(a) == multiset(b)
    ensures AlignmentScore(a, fs, ws) == AlignmentScore(b, fs, ws)
    ensures Phi(a, fs) == Phi(b, fs)
  {
    SumOfOrderFree(a, b, ScoreOf(fs, ws));
    forall i | 0 <= i < |fs| ensures Phi(a, fs)[i] == Phi(b, fs)[i] {
      SumOfOrderFree(a, b, fs[i]);
    }
  }

  /** `ScoreAccuracy` on two scores: 0 when the larger is 0, otherwise one
      minus the gap relative to the larger. */
  function Accuracy(sa: real, sb: real): (r: real)
    ensures MaxReal(sa, sb) == 0.0 ==> r == 0.0
    ensures sa == sb && sa != 0.0 ==> r == 1.0
    ensures 0.0 <= sa && 0.0 <= sb ==> 0.0 <= r <= 1.0
  {
    var m := MaxReal(sa, sb);
    if m == 0.0 then 0.0
    else
      if 0.0 <= sa && 0.0 <= sb then
        RatioAtMostOne(AbsReal(sa - sb), m);
        1.0 - AbsReal(sa - sb) / m
      else
        1.0 - AbsReal(sa - sb) / m
  }

  /** The accuracy does not depend on which score comes first. */
  lemma AccuracySymmetric(sa: real, sb: real)
    ensures Accuracy(sa, sb) == Accuracy(sb, sa)
  {
    assert MaxReal(sa, sb) == MaxReal(sb, sa);
    assert AbsReal(sa - sb) == AbsReal(sb - sa);
  }

  /** `ScoreAccuracy`: compares the scores of two alignments. */
  function ScoreAccuracy(a: Alignment, b: Alignment, fs: seq<Feature>, ws: seq<real>): (r: real)
    requires |ws| >= |fs|
    ensures MaxReal(AlignmentScore(a, fs, ws), AlignmentScore(b, fs, ws)) == 0.0 ==> r == 0.0
    ensures AlignmentScore(a, fs, ws) == AlignmentScore(b, fs, ws) != 0.0 ==> r == 1.0
    ensures 0.0 <= AlignmentScore(a, fs, ws) && 0.0 <= AlignmentScore(b, fs, ws) ==> 0.0 <= r <= 1.0
  {
    Accuracy(AlignmentScore(a, fs, ws), AlignmentScore(b, fs, ws))
  }

  /** `ScoreAccuracy` is symmetric in its two alignments. */
  lemma ScoreAccuracySymmetric(a: Alignment, b: Alignment, fs: seq<Feature>, ws: seq<real>)
    requires |ws| >= |fs|
    ensures ScoreAccuracy(a, b, fs, ws) == ScoreAccuracy(b, a, fs, ws)
  {
    AccuracySymmetric(AlignmentScore(a, fs, ws), AlignmentScore(b, fs, ws));
  }

  /** Two orders of the same edits are perfectly accurate against each other
      unless their score is 0. */
  lemma ScoreAccuracySameEdits(a: Alignment, b: Alignment, fs: seq<Feature>, ws: seq<real>)
    requires |ws| >= |fs|
    requires multiset(a) == multiset(b) && AlignmentScore(a, fs, ws) != 0.0
    ensures ScoreAccuracy(a, b, fs, ws) == 1.0
  {
    ScoreOrderFree(a, b, fs, ws);
  }
}
