/** `limitedSubsequences`: every selection of 1 to k elements of a sequence,
    taken at strictly increasing positions, produced by the nested-loop
    enumeration of index combinations. */
module Subsequences {

  /** Positions chosen in strictly increasing order. */
  predicate Increasing(c: seq<nat>)
  {
    forall i, j :: 0 <= i < j < |c| ==> c[i] < c[j]
  }

  /** Every chosen position lies in [lo, n). */
  predicate Within(c: seq<nat>, lo: nat, n: nat)
  {
    forall i :: 0 <= i < |c| ==> lo <= c[i] < n
  }

  /** Lexicographic order on index sequences. */
  predicate LexLess(a: seq<nat>, b: seq<nat>)
  {
    if |a| == 0 then |b| > 0
    else if |b| == 0 then false
    else a[0] < b[0] || (a[0] == b[0] && LexLess(a[1..], b[1..]))
  }

  /** The order of the enumeration: shorter selections first, then
      lexicographically. */
  predicate Before(a: seq<nat>, b: seq<nat>)
  {
    |a| < |b| || (|a| == |b| && LexLess(a, b))
  }

  function Prepend(x: nat, cs: seq<seq<nat>>): (r: seq<seq<nat>>)
    ensures |r| == |cs| && forall i :: 0 <= i < |cs| ==> r[i] == [x] + cs[i]
  {
    seq(|cs|, i requires 0 <= i < |cs| => [x] + cs[i])
  }

  /** The recursive emitter `comb(n, m)` started at position lo: for the first
      slot every position from lo upwards, each followed by all completions
      from the next position on. */
  function Choose(n: nat, m: nat, lo: nat): (r: seq<seq<nat>>)
    ensures forall c :: c in r ==> |c| == m && Increasing(c) && Within(c, lo, n)
    decreases n - lo, m
  {
    if m == 0 then [[]]
    else if lo >= n then []
    else
      var first := Choose(n, m - 1, lo + 1);
      var rest := Choose(n, m, lo + 1);
      assert forall c :: c in Prepend(lo, first) ==> |c| == m && Increasing(c) && Within(c, lo, n) by {
        forall c | c in Prepend(lo, first) ensures |c| == m && Increasing(c) && Within(c, lo, n) {
          var i :| 0 <= i < |first| && Prepend(lo, first)[i] == c;
          assert first[i] in first;
          ConsSound(lo, first[i], n);
        }
      }
      Prepend(lo, first) + rest
  }

  lemma ConsSound(lo: nat, c: seq<nat>, n: nat)
    requires Increasing(c) && Within(c, lo + 1, n) && lo < n
    ensures Increasing([lo] + c) && Within([lo] + c, lo, n)
  {
    var d := [lo] + c;
    forall i, j | 0 <= i < j < |d| ensures d[i] < d[j] {
      assert d[j] == c[j - 1];
      if i > 0 {
        assert d[i] == c[i - 1];
      }
    }
  }

  lemma TailSound(c: seq<nat>, lo: nat, n: nat)
    requires |c| > 0 && Increasing(c) && Within(c, lo, n)
    ensures Increasing(c[1..]) && Within(c[1..], c[0] + 1, n)
    ensures Within(c, c[0], n)
  {
    forall i | 0 <= i < |c[1..]| ensures c[0] + 1 <= c[1..][i] < n {
      assert c[1..][i] == c[i + 1];
    }
    forall i | 0 <= i < |c| ensures c[0] <= c[i] < n {
      if i > 0 {
        assert c[0] < c[i];
      }
    }
  }

  /** Every increasing selection of m positions in [lo, n) is emitted. */
  lemma {:induction false} ChooseComplete(n: nat, m: nat, lo: nat, c: seq<nat>)
    requires |c| == m && Increasing(c) && Within(c, lo, n)
    ensures c in Choose(n, m, lo)
    decreases n - lo, m
  {
    if m > 0 {
      assert lo <= c[0] < n;
      var first := Choose(n, m - 1, lo + 1);
      assert Choose(n, m, lo) == Prepend(lo, first) + Choose(n, m, lo + 1);
      TailSound(c, lo, n);
      if c[0] == lo {
        ChooseComplete(n, m - 1, lo + 1, c[1..]);
        PrependMember(lo, first, c[1..]);
        assert c == [lo] + c[1..];
      } else {
        assert Within(c, lo + 1, n);
        ChooseComplete(n, m, lo + 1, c);
      }
    }
  }

  lemma PrependMember(x: nat, cs: seq<seq<nat>>, c: seq<nat>)
    requires c in cs
    ensures [x] + c in Prepend(x, cs)
  {
    var i :| 0 <= i < |cs| && cs[i] == c;
    assert Prepend(x, cs)[i] == [x] + c;
  }

  lemma LexLessPrepend(x: nat, a: seq<nat>, b: seq<nat>)
    ensures LexLess([x] + a, [x] + b) == LexLess(a, b)
  {
    assert ([x] + a)[1..] == a;
    assert ([x] + b)[1..] == b;
  }

  /** The emitted selections come in strictly increasing lexicographic order,
      so none is emitted twice. */
  lemma {:induction false} ChooseOrdered(n: nat, m: nat, lo: nat)
    ensures forall i, j :: 0 <= i < j < |Choose(n, m, lo)| ==> LexLess(Choose(n, m, lo)[i], Choose(n, m, lo)[j])
    decreases n - lo, m
  {
    if m > 0 && lo < n {
      var first := Choose(n, m - 1, lo + 1);
      var rest := Choose(n, m, lo + 1);
      var r := Choose(n, m, lo);
      var pf := Prepend(lo, first);
      assert r == pf + rest;
      ChooseOrdered(n, m - 1, lo + 1);
      ChooseOrdered(n, m, lo + 1);
      forall i, j | 0 <= i < j < |r| ensures LexLess(r[i], r[j]) {
        if j < |pf| {
          assert r[i] == [lo] + first[i] && r[j] == [lo] + first[j];
          LexLessPrepend(lo, first[i], first[j]);
        } else if i < |pf| {
          assert r[i] == [lo] + first[i];
          HeadBeforeRest(n, m, lo, rest[j - |pf|]);
        } else {
          assert r[i] == rest[i - |pf|] && r[j] == rest[j - |pf|];
        }
      }
    }
  }

  /** A selection starting at lo precedes every selection drawn from lo + 1
      on. */
  lemma HeadBeforeRest(n: nat, m: nat, lo: nat, c: seq<nat>)
    requires m > 0 && c in Choose(n, m, lo + 1)
    ensures forall b :: |b| > 0 && b[0] == lo ==> LexLess(b, c)
  {
    assert |c| == m && Within(c, lo + 1, n);
  }

  /** `combIndexes(n, k)`: the selections of every length from i up to k. */
  function CombFrom(n: nat, i: nat, k: int): (r: seq<seq<nat>>)
    requires i >= 1
    ensures forall c :: c in r ==> i <= |c| <= k && Increasing(c) && Within(c, 0, n)
    decreases k - i
  {
    if i > k then [] else Choose(n, i, 0) + CombFrom(n, i + 1, k)
  }

  function CombIndexes(n: nat, k: int): (r: seq<seq<nat>>)
    ensures forall c :: c in r ==> 1 <= |c| <= k && Increasing(c) && Within(c, 0, n)
  {
    CombFrom(n, 1, k)
  }

  lemma {:induction false} CombFromComplete(n: nat, i: nat, k: int, c: seq<nat>)
    requires i >= 1 && i <= |c| <= k && Increasing(c) && Within(c, 0, n)
    ensures c in CombFrom(n, i, k)
    decreases k - i
  {
    if |c| == i {
      ChooseComplete(n, i, 0, c);
    } else {
      CombFromComplete(n, i + 1, k, c);
    }
  }

  lemma {:induction false} CombFromOrdered(n: nat, i: nat, k: int)
    requires i >= 1
    ensures forall p, q :: 0 <= p < q < |CombFrom(n, i, k)| ==> Before(CombFrom(n, i, k)[p], CombFrom(n, i, k)[q])
    decreases k - i
  {
    if i <= k {
      var ch := Choose(n, i, 0);
      var rest := CombFrom(n, i + 1, k);
      var r := CombFrom(n, i, k);
      assert r == ch + rest;
      ChooseOrdered(n, i, 0);
      CombFromOrdered(n, i + 1, k);
      forall p, q | 0 <= p < q < |r| ensures Before(r[p], r[q]) {
        if q < |ch| {
          assert r[p] == ch[p] && r[q] == ch[q];
        } else if p < |ch| {
          assert r[p] in ch && r[q] in rest;
        } else {
          assert r[p] == rest[p - |ch|] && r[q] == rest[q - |ch|];
        }
      }
    }
  }

  /** The index enumeration holds exactly the increasing selections of 1 to k
      positions below n, each once, shorter ones first and then in
      lexicographic order. */
  lemma CombIndexesSpec(n: nat, k: int)
    ensures forall c :: c in CombIndexes(n, k) <==> 1 <= |c| <= k && Increasing(c) && Within(c, 0, n)
    ensures forall p, q :: 0 <= p < q < |CombIndexes(n, k)| ==> Before(CombIndexes(n, k)[p], CombIndexes(n, k)[q])
  {
    forall c | 1 <= |c| <= k && Increasing(c) && Within(c, 0, n) ensures c in CombIndexes(n, k) {
      CombFromComplete(n, 1, k, c);
    }
    CombFromOrdered(n, 1, k);
  }

  lemma {:induction false} LexLessIrreflexive(a: seq<nat>)
    ensures !LexLess(a, a)
  {
    if |a| > 0 {
      LexLessIrreflexive(a[1..]);
    }
  }

  /** No selection is emitted twice. */
  lemma CombIndexesDistinct(n: nat, k: int)
    ensures forall p, q :: 0 <= p < q < |CombIndexes(n, k)| ==> CombIndexes(n, k)[p] != CombIndexes(n, k)[q]
  {
    CombIndexesSpec(n, k);
    forall p, q | 0 <= p < q < |CombIndexes(n, k)| ensures CombIndexes(n, k)[p] != CombIndexes(n, k)[q] {
      LexLessIrreflexive(CombIndexes(n, k)[p]);
    }
  }

  /** Nothing is emitted for a non-positive limit or an empty input, and
      something is emitted otherwise. */
  lemma CombIndexesEmpty(n: nat, k: int)
    ensures CombIndexes(n, k) == [] <==> k <= 0 || n == 0
  {
    if k >= 1 && n >= 1 {
      CombFromComplete(n, 1, k, [0]);
    } else if n == 0 {
      CombFromNone(1, k);
    }
  }

  lemma {:induction false} CombFromNone(i: nat, k: int)
    requires i >= 1
    ensures CombFrom(0, i, k) == []
    decreases k - i
  {
    if i <= k {
      CombFromNone(i + 1, k);
    }
  }

  /** The elements of arr at the chosen positions. */
  function Select<T>(arr: seq<T>, c: seq<nat>): (r: seq<T>)
    requires Within(c, 0, |arr|)
    ensures |r| == |c| && forall j :: 0 <= j < |c| ==> r[j] == arr[c[j]]
  {
    seq(|c|, j requires 0 <= j < |c| => arr[c[j]])
  }

  /** `limitedSubsequences(arr, k)`. */
  function LimitedSubsequences<T>(arr: seq<T>, k: int): (r: seq<seq<T>>)
    ensures |r| == |CombIndexes(|arr|, k)|
    ensures forall p :: 0 <= p < |r| ==> r[p] == Select(arr, CombIndexes(|arr|, k)[p])
  {
    var idx := CombIndexes(|arr|, k);
    assert forall p :: 0 <= p < |idx| ==> idx[p] in idx;
    seq(|idx|, p requires 0 <= p < |idx| => Select(arr, idx[p]))
  }

  /** A sequence without repeated elements. */
  ghost predicate NoDup<T>(s: seq<T>)
  {
    forall i, j :: 0 <= i < j < |s| ==> s[i] != s[j]
  }

  /** Each produced subsequence is non-empty, at most k long, made of
      elements of arr, and repeats nothing when arr repeats nothing. */
  lemma LimitedSubsequencesElements<T>(arr: seq<T>, k: int, p: nat)
    requires p < |LimitedSubsequences(arr, k)|
    ensures 1 <= |LimitedSubsequences(arr, k)[p]| <= k
    ensures forall x :: x in LimitedSubsequences(arr, k)[p] ==> x in arr
    ensures NoDup(arr) ==> NoDup(LimitedSubsequences(arr, k)[p])
  {
    var c := CombIndexes(|arr|, k)[p];
    assert c in CombIndexes(|arr|, k);
  }

  /** Selections at increasing positions are exactly the subsequences: each
      subsequence of 1 to k elements at increasing positions is produced. */
  lemma LimitedSubsequencesComplete<T>(arr: seq<T>, k: int, c: seq<nat>)
    requires 1 <= |c| <= k && Increasing(c) && Within(c, 0, |arr|)
    ensures Select(arr, c) in LimitedSubsequences(arr, k)
  {
    CombIndexesSpec(|arr|, k);
    var p :| 0 <= p < |CombIndexes(|arr|, k)| && CombIndexes(|arr|, k)[p] == c;
    assert LimitedSubsequences(arr, k)[p] == Select(arr, c);
  }

  lemma LimitedSubsequencesEmpty<T>(arr: seq<T>, k: int)
    ensures LimitedSubsequences(arr, k) == [] <==> k <= 0 || |arr| == 0
  {
    CombIndexesEmpty(|arr|, k);
  }
}
