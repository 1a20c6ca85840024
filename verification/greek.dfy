/** The Greek aligner's successor function `next`: from an alignment it
    proposes the alignments one greedy step away. While some deleted source
    word and some inserted target word have the same text, the proposals are
    exactly the ways of pairing one such Del with one such Ins into an Eq;
    otherwise they are every Sub of 1 to k deleted words against 1 to k
    inserted words. Two copies of the function exist and differ only in the
    text test of the Eq pass. */
module Greek {
  import opened Base
  import opened Words
  import opened Edits
  import opened Alignments
  import opened Subsequences

  /** The copy in the aligner package compares texts with punctuation
      stripped; the older copy at the repository root compares them as they
      are. */
  datatype Variant = Package(removePunctuation: string -> string) | Legacy

  /** The text test of the Eq pass. */
  predicate EqMatch(v: Variant, x: Word, y: Word)
  {
    match v
    case Package(strip) => strip(x.text) == strip(y.text)
    case Legacy => x.text == y.text
  }

  /** Whether the Eq pass finds anything to pair. */
  predicate HasEqPair(v: Variant, dels: seq<Word>, inss: seq<Word>)
  {
    exists x, y :: x in dels && y in inss && EqMatch(v, x, y)
  }

  /** The alignment with Del(x) and Ins(y) replaced by Eq(x, y). */
  function EqCandidate(a: Alignment, x: Word, y: Word): Alignment
  {
    Add(Remove(a, [Del(x), Ins(y)]), [Eq(x, y)])
  }

  /** The inner loop of the Eq pass, for one deleted word x: the inserted
      words it matches, in order. */
  function EqRowPairs(v: Variant, x: Word, inss: seq<Word>): seq<(Word, Word)>
  {
    if |inss| == 0 then []
    else (if EqMatch(v, x, inss[0]) then [(x, inss[0])] else []) + EqRowPairs(v, x, inss[1..])
  }

  /** The matching pairs in the order of the Eq pass: deleted words outside,
      inserted words inside. */
  function EqPairs(v: Variant, dels: seq<Word>, inss: seq<Word>): seq<(Word, Word)>
  {
    if |dels| == 0 then [] else EqRowPairs(v, dels[0], inss) + EqPairs(v, dels[1..], inss)
  }

  /** The Eq pass: one candidate per matching pair, in loop order. */
  function EqPass(v: Variant, a: Alignment, dels: seq<Word>, inss: seq<Word>): seq<Alignment>
  {
    var ps := EqPairs(v, dels, inss);
    seq(|ps|, j requires 0 <= j < |ps| => EqCandidate(a, ps[j].0, ps[j].1))
  }

  lemma {:induction false} EqRowPairsMembers(v: Variant, x: Word, inss: seq<Word>)
    ensures forall pr :: pr in EqRowPairs(v, x, inss) <==> pr.0 == x && pr.1 in inss && EqMatch(v, x, pr.1)
  {
    if |inss| > 0 {
      EqRowPairsMembers(v, x, inss[1..]);
      assert inss == [inss[0]] + inss[1..];
    }
  }

  /** The pairs visited are exactly the matching pairs. */
  lemma {:induction false} EqPairsMembers(v: Variant, dels: seq<Word>, inss: seq<Word>)
    ensures forall pr :: pr in EqPairs(v, dels, inss) <==> pr.0 in dels && pr.1 in inss && EqMatch(v, pr.0, pr.1)
  {
    if |dels| > 0 {
      EqRowPairsMembers(v, dels[0], inss);
      EqPairsMembers(v, dels[1..], inss);
      assert dels == [dels[0]] + dels[1..];
    }
  }

  /** A sequence built position by position from a list of pairs holds
      exactly the images of those pairs. */
  lemma MapPairsMembers<P, T>(ps: seq<P>, f: P -> T, r: seq<T>)
    requires |r| == |ps| && forall j :: 0 <= j < |ps| ==> r[j] == f(ps[j])
    ensures forall c :: c in r <==> exists pr :: pr in ps && c == f(pr)
  {
    forall c | c in r ensures exists pr :: pr in ps && c == f(pr) {
      var j :| 0 <= j < |r| && r[j] == c;
      assert ps[j] in ps;
    }
  }

  /** The Eq pass proposes exactly the Eq candidates of the matching pairs of
      a deleted and an inserted word. */
  lemma EqPassMembers(v: Variant, a: Alignment, dels: seq<Word>, inss: seq<Word>)
    ensures forall c :: c in EqPass(v, a, dels, inss) <==>
      exists x, y :: x in dels && y in inss && EqMatch(v, x, y) && c == EqCandidate(a, x, y)
  {
    var ps := EqPairs(v, dels, inss);
    var f := (pr: (Word, Word)) => EqCandidate(a, pr.0, pr.1);
    MapPairsMembers(ps, f, EqPass(v, a, dels, inss));
    EqPairsMembers(v, dels, inss);
    var r := EqPass(v, a, dels, inss);
    forall c | c in r ensures exists x, y :: x in dels && y in inss && EqMatch(v, x, y) && c == EqCandidate(a, x, y) {
      var pr :| pr in ps && c == f(pr);
      assert pr.0 in dels && pr.1 in inss && EqMatch(v, pr.0, pr.1);
    }
    forall x, y | x in dels && y in inss && EqMatch(v, x, y) ensures EqCandidate(a, x, y) in r {
      assert (x, y) in ps && EqCandidate(a, x, y) == f((x, y));
    }
  }

  /** The Eq pass proposes nothing exactly when no pair matches. */
  lemma EqPassEmpty(v: Variant, a: Alignment, dels: seq<Word>, inss: seq<Word>)
    ensures EqPass(v, a, dels, inss) == [] <==> !HasEqPair(v, dels, inss)
  {
    EqPairsMembers(v, dels, inss);
    if HasEqPair(v, dels, inss) {
      var x, y :| x in dels && y in inss && EqMatch(v, x, y);
      assert (x, y) in EqPairs(v, dels, inss);
    }
    if EqPairs(v, dels, inss) != [] {
      assert EqPairs(v, dels, inss)[0] in EqPairs(v, dels, inss);
    }
  }

  // ---------------------------------------------------------------------------
  // removeEditWithWordsByID

  /** The test applied to each edit for the word w. */
  function Matching(w: Word): Edit -> bool
  {
    e => MatchesWord(e, w)
  }

  /** The edits collected for removal: for each word in turn, every edit of
      the alignment that matches it (an edit may be collected twice). */
  function ToRemove(a: Alignment, ws: seq<Word>): (r: seq<Edit>)
    ensures forall e :: e in r <==> e in a && exists w :: w in ws && MatchesWord(e, w)
  {
    if |ws| == 0 then []
    else
      assert ws == [ws[0]] + ws[1..];
      KeepIf(a, Matching(ws[0])) + ToRemove(a, ws[1..])
  }

  /** `removeEditWithWordsByID`: drops every edit that uses one of ws. */
  function RemoveEditWithWordsByID(a: Alignment, ws: seq<Word>): (r: Alignment)
    ensures forall e :: e in r <==> e in a && forall w :: w in ws ==> Occ(e, w) == 0
    ensures forall e :: (forall w :: w in ws ==> Occ(e, w) == 0) ==> multiset(r)[e] == multiset(a)[e]
  {
    var t := ToRemove(a, ws);
    assert forall e, w :: MatchesWord(e, w) <==> Occ(e, w) > 0 by {
      forall e, w ensures MatchesWord(e, w) <==> Occ(e, w) > 0 {
        MatchesWordIffUses(e, w);
      }
    }
    Remove(a, t)
  }

  /** The alignment with the users of the words of d and i replaced by
      Sub(d, i). */
  function SubCandidate(a: Alignment, d: seq<Word>, i: seq<Word>): Alignment
  {
    Add(RemoveEditWithWordsByID(a, d + i), [Sub(d, i)])
  }

  /** The inner loop of the Sub pass, for one group d of deleted words. */
  function GridRow(d: seq<Word>, subIns: seq<seq<Word>>): (r: seq<(seq<Word>, seq<Word>)>)
  {
    seq(|subIns|, q requires 0 <= q < |subIns| => (d, subIns[q]))
  }

  /** The pairs of groups in the order of the Sub pass: groups of deleted
      words outside, groups of inserted words inside. */
  function Grid(subDels: seq<seq<Word>>, subIns: seq<seq<Word>>): seq<(seq<Word>, seq<Word>)>
  {
    if |subDels| == 0 then [] else GridRow(subDels[0], subIns) + Grid(subDels[1..], subIns)
  }

  /** The Sub pass: one candidate per pair of groups, in loop order. */
  function SubPass(a: Alignment, subDels: seq<seq<Word>>, subIns: seq<seq<Word>>): seq<Alignment>
  {
    var g := Grid(subDels, subIns);
    seq(|g|, j requires 0 <= j < |g| => SubCandidate(a, g[j].0, g[j].1))
  }

  lemma MulSucc(m: nat, n: nat)
    requires m > 0
    ensures m * n == n + (m - 1) * n
  {
  }

  /** The position p * n + q of a nested loop lies inside an m-by-n walk. */
  lemma PairIndexInRange(p: nat, q: nat, m: nat, n: nat)
    requires p < m && q < n
    ensures p * n + q < m * n
  {
    assert (p + 1) * n <= m * n by {
      assert m * n == (p + 1) * n + (m - p - 1) * n;
    }
  }

  /** The Sub pass visits each pair of groups once. */
  lemma {:induction false} GridLength(subDels: seq<seq<Word>>, subIns: seq<seq<Word>>)
    ensures |Grid(subDels, subIns)| == |subDels| * |subIns|
  {
    if |subDels| > 0 {
      GridLength(subDels[1..], subIns);
      MulSucc(|subDels|, |subIns|);
    }
  }

  lemma {:induction false} GridMembers(subDels: seq<seq<Word>>, subIns: seq<seq<Word>>)
    ensures forall pr :: pr in Grid(subDels, subIns) <==> pr.0 in subDels && pr.1 in subIns
  {
    if |subDels| > 0 {
      GridMembers(subDels[1..], subIns);
      assert subDels == [subDels[0]] + subDels[1..];
      var row := GridRow(subDels[0], subIns);
      forall pr | pr in row ensures pr.0 == subDels[0] && pr.1 in subIns {
        var q :| 0 <= q < |row| && row[q] == pr;
      }
      forall i | i in subIns ensures (subDels[0], i) in row {
        var q :| 0 <= q < |subIns| && subIns[q] == i;
        assert row[q] == (subDels[0], i);
      }
    }
  }

  /** The pairs come in nested-loop order: the p-th group of deleted words
      with the q-th group of inserted words is visited at p * n + q. */
  lemma {:induction false} GridIndex(subDels: seq<seq<Word>>, subIns: seq<seq<Word>>, p: nat, q: nat)
    requires p < |subDels| && q < |subIns|
    ensures p * |subIns| + q < |Grid(subDels, subIns)|
    ensures Grid(subDels, subIns)[p * |subIns| + q] == (subDels[p], subIns[q])
  {
    var n := |subIns|;
    GridLength(subDels, subIns);
    PairIndexInRange(p, q, |subDels|, n);
    if p > 0 {
      GridIndex(subDels[1..], subIns, p - 1, q);
      MulSucc(p, n);
      assert p * n + q == n + ((p - 1) * n + q);
      assert subDels[1..][p - 1] == subDels[p];
    }
  }

  // ---------------------------------------------------------------------------
  // next

  /** `next`: no proposals when nothing is deleted; the Eq pass when it finds
      anything; otherwise the Sub pass over the ID-sorted deleted and
      inserted words. */
  function Next(v: Variant, a: Alignment, k: int): seq<Alignment>
  {
    if DelCount(a) == 0 then []
    else
      var eqs := EqPass(v, a, DelWords(a), InsWords(a));
      if |eqs| > 0 then eqs
      else SubPass(a, SubDels(a, k), SubInss(a, k))
  }

  function SubDels(a: Alignment, k: int): seq<seq<Word>>
  {
    LimitedSubsequences(SortByID(DelWords(a)), k)
  }

  function SubInss(a: Alignment, k: int): seq<seq<Word>>
  {
    LimitedSubsequences(SortByID(InsWords(a)), k)
  }

  lemma NextIsEqPass(v: Variant, a: Alignment, k: int)
    requires HasEqPair(v, DelWords(a), InsWords(a))
    ensures Next(v, a, k) == EqPass(v, a, DelWords(a), InsWords(a))
  {
    EqPassEmpty(v, a, DelWords(a), InsWords(a));
  }

  lemma NextIsSubPass(v: Variant, a: Alignment, k: int)
    requires DelCount(a) > 0 && !HasEqPair(v, DelWords(a), InsWords(a))
    ensures Next(v, a, k) == SubPass(a, SubDels(a, k), SubInss(a, k))
  {
    EqPassEmpty(v, a, DelWords(a), InsWords(a));
  }

  /** Eq pairs take precedence: when one exists the proposals are exactly the
      Eq candidates, one per matching pair of a Del edit and an Ins edit. */
  lemma NextEqFirst(v: Variant, a: Alignment, k: int)
    requires HasEqPair(v, DelWords(a), InsWords(a))
    ensures forall c :: c in Next(v, a, k) <==>
      exists x, y :: Del(x) in a && Ins(y) in a && EqMatch(v, x, y) && c == EqCandidate(a, x, y)
  {
    NextIsEqPass(v, a, k);
    EqPassMembers(v, a, DelWords(a), InsWords(a));
    forall w {
      DelInsWordsMembers(a, w);
    }
  }

  /** Without an Eq pair the proposals are the Sub candidates for every pair
      of a group of 1 to k deleted words and a group of 1 to k inserted
      words, each group taken in ID order; `Grid` fixes their order. */
  lemma NextSubs(v: Variant, a: Alignment, k: int)
    requires DelCount(a) > 0 && !HasEqPair(v, DelWords(a), InsWords(a))
    ensures |Next(v, a, k)| == |SubDels(a, k)| * |SubInss(a, k)|
    ensures forall c :: c in Next(v, a, k) <==>
      exists d, i :: d in SubDels(a, k) && i in SubInss(a, k) && c == SubCandidate(a, d, i)
  {
    NextIsSubPass(v, a, k);
    GridLength(SubDels(a, k), SubInss(a, k));
    SubPassMembers(a, SubDels(a, k), SubInss(a, k));
  }

  /** The Sub pass proposes exactly the Sub candidates of the pairs of
      groups. */
  lemma SubPassMembers(a: Alignment, ds: seq<seq<Word>>, ins: seq<seq<Word>>)
    ensures forall c :: c in SubPass(a, ds, ins) <==>
      exists d, i :: d in ds && i in ins && c == SubCandidate(a, d, i)
  {
    var g := Grid(ds, ins);
    var f := (pr: (seq<Word>, seq<Word>)) => SubCandidate(a, pr.0, pr.1);
    GridMembers(ds, ins);
    var r := SubPass(a, ds, ins);
    MapPairsMembers(g, f, r);
    forall c | c in r ensures exists d, i :: d in ds && i in ins && c == SubCandidate(a, d, i) {
      var pr :| pr in g && c == f(pr);
      assert pr.0 in ds && pr.1 in ins;
    }
    forall d, i | d in ds && i in ins ensures SubCandidate(a, d, i) in r {
      assert (d, i) in g && SubCandidate(a, d, i) == f((d, i));
    }
  }

  /** Every proposal without an Eq pair is the Sub candidate of a p-th
      group of deleted words and a q-th group of inserted words. */
  lemma NextSubMember(v: Variant, a: Alignment, k: int, c: Alignment) returns (p: nat, q: nat)
    requires DelCount(a) > 0 && !HasEqPair(v, DelWords(a), InsWords(a))
    requires c in Next(v, a, k)
    ensures p < |SubDels(a, k)| && q < |SubInss(a, k)|
    ensures c == SubCandidate(a, SubDels(a, k)[p], SubInss(a, k)[q])
  {
    NextSubs(v, a, k);
    var d, i :| d in SubDels(a, k) && i in SubInss(a, k) && c == SubCandidate(a, d, i);
    p :| p < |SubDels(a, k)| && SubDels(a, k)[p] == d;
    q :| q < |SubInss(a, k)| && SubInss(a, k)[q] == i;
  }

  /** Every choice of deleted and inserted words at increasing positions of
      the ID-sorted lists is proposed when there is no Eq pair. */
  lemma NextSubComplete(v: Variant, a: Alignment, k: int, cd: seq<nat>, ci: seq<nat>)
    requires DelCount(a) > 0 && !HasEqPair(v, DelWords(a), InsWords(a))
    requires 1 <= |cd| <= k && Increasing(cd) && Within(cd, 0, |SortByID(DelWords(a))|)
    requires 1 <= |ci| <= k && Increasing(ci) && Within(ci, 0, |SortByID(InsWords(a))|)
    ensures SubCandidate(a, Select(SortByID(DelWords(a)), cd), Select(SortByID(InsWords(a)), ci)) in Next(v, a, k)
  {
    LimitedSubsequencesComplete(SortByID(DelWords(a)), k, cd);
    LimitedSubsequencesComplete(SortByID(InsWords(a)), k, ci);
    NextSubs(v, a, k);
  }

  lemma SortedLength(s: seq<Word>)
    ensures |SortByID(s)| == |s|
  {
    assert |multiset(SortByID(s))| == |multiset(s)|;
  }

  /** `next` proposes nothing exactly when nothing is deleted, or when no Eq
      pair exists and either nothing is inserted or the group size limit is
      not positive. */
  lemma NextEmpty(v: Variant, a: Alignment, k: int)
    ensures Next(v, a, k) == [] <==>
      DelCount(a) == 0 || (!HasEqPair(v, DelWords(a), InsWords(a)) && (InsCount(a) == 0 || k <= 0))
  {
    if DelCount(a) > 0 {
      if HasEqPair(v, DelWords(a), InsWords(a)) {
        NextIsEqPass(v, a, k);
        EqPassEmpty(v, a, DelWords(a), InsWords(a));
      } else {
        SortedLength(DelWords(a));
        SortedLength(InsWords(a));
        LimitedSubsequencesEmpty(SortByID(DelWords(a)), k);
        LimitedSubsequencesEmpty(SortByID(InsWords(a)), k);
        NextIsSubPass(v, a, k);
        GridLength(SubDels(a, k), SubInss(a, k));
        var m := |SubDels(a, k)|;
        var n := |SubInss(a, k)|;
        assert m * n == 0 <==> m == 0 || n == 0;
      }
    }
  }

  // ---------------------------------------------------------------------------
  // Termination measure: each proposal has fewer Del edits.

  lemma RemoveDelCount(a: Alignment, es: seq<Edit>, x: Word)
    requires Del(x) in a && Del(x) in es
    ensures DelCount(Remove(a, es)) < DelCount(a)
  {
    DelCountKeepIf(a, NotIn(es));
  }

  lemma AddNoDel(a: Alignment, e: Edit)
    requires !e.Del?
    ensures DelCount(Add(a, [e])) == DelCount(a)
  {
    DelWordsAppend(a, [e]);
  }

  lemma EqCandidateDecreases(a: Alignment, x: Word, y: Word)
    requires Del(x) in a
    ensures DelCount(EqCandidate(a, x, y)) < DelCount(a)
  {
    RemoveDelCount(a, [Del(x), Ins(y)], x);
    AddNoDel(Remove(a, [Del(x), Ins(y)]), Eq(x, y));
  }

  lemma SubCandidateDecreases(a: Alignment, d: seq<Word>, i: seq<Word>)
    requires |d| > 0 && Del(d[0]) in a
    ensures DelCount(SubCandidate(a, d, i)) < DelCount(a)
  {
    var t := ToRemove(a, d + i);
    assert MatchesWord(Del(d[0]), d[0]);
    assert d[0] in d + i;
    RemoveDelCount(a, t, d[0]);
    AddNoDel(RemoveEditWithWordsByID(a, d + i), Sub(d, i));
  }

  /** Every proposal has strictly fewer Del edits, so repeatedly taking a
      proposal stops. */
  lemma NextDecreases(v: Variant, a: Alignment, k: int)
    ensures forall c :: c in Next(v, a, k) ==> DelCount(c) < DelCount(a)
  {
    if DelCount(a) > 0 {
      if HasEqPair(v, DelWords(a), InsWords(a)) {
        NextEqFirst(v, a, k);
        forall c | c in Next(v, a, k) ensures DelCount(c) < DelCount(a) {
          var x, y :| Del(x) in a && Ins(y) in a && EqMatch(v, x, y) && c == EqCandidate(a, x, y);
          EqCandidateDecreases(a, x, y);
        }
      } else {
        forall c | c in Next(v, a, k) ensures DelCount(c) < DelCount(a) {
          var p, q := NextSubMember(v, a, k, c);
          SubGroupsFromAlignment(a, k, p);
          SubCandidateDecreases(a, SubDels(a, k)[p], SubInss(a, k)[q]);
        }
      }
    }
  }

  // ---------------------------------------------------------------------------
  // Word coverage: every proposal uses exactly the words the alignment uses.

  /** In a partitioned alignment a word has at most one user. */
  lemma UniqueUser(a: Alignment, e1: Edit, e2: Edit, w: Word)
    requires Partitioned(a) && e1 in a && e2 in a
    requires Occ(e1, w) > 0 && Occ(e2, w) > 0
    ensures e1 == e2
  {
    if e1 != e2 {
      CountInTwoMembers(a, e1, e2, w);
    }
  }

  lemma SingleUse(a: Alignment, e: Edit, w: Word)
    requires Partitioned(a) && e in a && Occ(e, w) > 0
    ensures CountIn(a, w) == 1
  {
    CountInMember(a, e, w);
  }

  /** Replacing the users of the words ws by one edit that uses each of them
      once leaves the uses of every word as they were. */
  lemma ReplaceUsers(a: Alignment, p: Edit -> bool, ws: seq<Word>, added: Edit, u: Word)
    requires forall e, x :: e in a && !p(e) && Occ(e, x) > 0 ==> x in ws
    requires forall e, w :: e in a && w in ws && Occ(e, w) > 0 ==> !p(e)
    requires u in ws ==> CountIn(a, u) == 1
    requires Occ(added, u) == (if u in ws then 1 else 0)
    ensures CountIn(KeepIf(a, p) + [added], u) == CountIn(a, u)
  {
    CountInAppend(KeepIf(a, p), [added], u);
    assert CountIn([added], u) == Occ(added, u);
    if u in ws {
      CountInKeepNone(a, p, u);
    } else {
      CountInKeepAll(a, p, u);
    }
  }

  /** An Eq candidate uses every word exactly as often as the alignment. */
  lemma EqCandidateCoverage(a: Alignment, x: Word, y: Word, u: Word)
    requires Partitioned(a) && Del(x) in a && Ins(y) in a
    ensures CountIn(EqCandidate(a, x, y), u) == CountIn(a, u)
  {
    assert x != y by {
      if x == y {
        CountInTwoMembers(a, Del(x), Ins(y), x);
      }
    }
    var es := [Del(x), Ins(y)];
    var ws := [x, y];
    forall e, w | e in a && w in ws && Occ(e, w) > 0 ensures !NotIn(es)(e) {
      if w == x {
        UniqueUser(a, e, Del(x), x);
      } else {
        UniqueUser(a, e, Ins(y), y);
      }
    }
    if u in ws {
      if u == x {
        SingleUse(a, Del(x), x);
      } else {
        SingleUse(a, Ins(y), y);
      }
    }
    assert WordsOf(Eq(x, y)) == ws;
    ReplaceUsers(a, NotIn(es), ws, Eq(x, y), u);
  }

  /** A Sub candidate over deleted words d and inserted words i, none
      repeated, uses every word exactly as often as the alignment. */
  lemma SubCandidateCoverage(a: Alignment, d: seq<Word>, i: seq<Word>, u: Word)
    requires Partitioned(a)
    requires forall w :: w in d ==> Del(w) in a
    requires forall w :: w in i ==> Ins(w) in a
    requires NoDup(d + i)
    ensures CountIn(SubCandidate(a, d, i), u) == CountIn(a, u)
  {
    var ws := d + i;
    var t := ToRemove(a, ws);
    forall e, x | e in a && !NotIn(t)(e) && Occ(e, x) > 0 ensures x in ws {
      var w :| w in ws && MatchesWord(e, w);
      MatchesWordIffUses(e, w);
      var owner := if w in d then Del(w) else Ins(w);
      UniqueUser(a, e, owner, w);
    }
    forall e, w | e in a && w in ws && Occ(e, w) > 0 ensures !NotIn(t)(e) {
      MatchesWordIffUses(e, w);
    }
    if u in ws {
      SingleUse(a, if u in d then Del(u) else Ins(u), u);
    }
    NoDupCount(ws, u);
    ReplaceUsers(a, NotIn(t), ws, Sub(d, i), u);
  }

  lemma {:induction false} NoDupCount(s: seq<Word>, u: Word)
    requires NoDup(s)
    ensures multiset(s)[u] == if u in s then 1 else 0
  {
    if |s| > 0 {
      assert s == [s[0]] + s[1..];
      assert NoDup(s[1..]) by {
        forall m, n | 0 <= m < n < |s[1..]| ensures s[1..][m] != s[1..][n] {
          assert s[1..][m] == s[m + 1] && s[1..][n] == s[n + 1];
        }
      }
      NoDupCount(s[1..], u);
    }
  }

  lemma CountOneNoDup(s: seq<Word>)
    requires forall u :: multiset(s)[u] <= 1
    ensures NoDup(s)
  {
    forall m, n | 0 <= m < n < |s| ensures s[m] != s[n] {
      if s[m] == s[n] {
        TwoPositionsCount(s, m, n);
      }
    }
  }

  lemma TwoPositionsCount(s: seq<Word>, m: nat, n: nat)
    requires m < n < |s| && s[m] == s[n]
    ensures multiset(s)[s[n]] >= 2
  {
    assert s == s[..n] + s[n..];
    assert multiset(s) == multiset(s[..n]) + multiset(s[n..]);
    assert s[..n][m] == s[n] && s[n..][0] == s[n];
  }

  /** The groups the Sub pass draws come from the Del and Ins edits of the
      alignment. */
  lemma SubGroupsFromAlignment(a: Alignment, k: int, p: nat)
    requires p < |SubDels(a, k)|
    ensures |SubDels(a, k)[p]| > 0
    ensures forall w :: w in SubDels(a, k)[p] ==> Del(w) in a
  {
    var ds := SortByID(DelWords(a));
    LimitedSubsequencesElements(ds, k, p);
    forall w | w in SubDels(a, k)[p] ensures Del(w) in a {
      assert w in multiset(ds);
      DelInsWordsMembers(a, w);
    }
  }

  lemma SubGroupsNoDup(a: Alignment, k: int, p: nat, q: nat)
    requires Partitioned(a)
    requires p < |SubDels(a, k)| && q < |SubInss(a, k)|
    ensures forall w :: w in SubInss(a, k)[q] ==> Ins(w) in a
    ensures NoDup(SubDels(a, k)[p] + SubInss(a, k)[q])
  {
    var ds := SortByID(DelWords(a));
    var ins := SortByID(InsWords(a));
    var d := SubDels(a, k)[p];
    var i := SubInss(a, k)[q];
    forall u ensures multiset(ds)[u] <= 1 && multiset(ins)[u] <= 1 {
      DelInsWordsBound(a, u);
    }
    CountOneNoDup(ds);
    CountOneNoDup(ins);
    LimitedSubsequencesElements(ds, k, p);
    LimitedSubsequencesElements(ins, k, q);
    forall w | w in i ensures Ins(w) in a {
      assert w in multiset(ins);
      DelInsWordsMembers(a, w);
    }
    SubGroupsFromAlignment(a, k, p);
    var s := d + i;
    forall m, n | 0 <= m < n < |s| ensures s[m] != s[n] {
      if n < |d| {
        assert s[m] == d[m] && s[n] == d[n];
      } else if m >= |d| {
        assert s[m] == i[m - |d|] && s[n] == i[n - |d|];
      } else {
        assert s[m] in d && s[n] in i;
        if s[m] == s[n] {
          CountInTwoMembers(a, Del(s[m]), Ins(s[m]), s[m]);
        }
      }
    }
  }

  /** In a partitioned alignment, every proposal uses every word exactly as
      often as the alignment does: `next` only regroups words. */
  lemma NextCoverage(v: Variant, a: Alignment, k: int, c: Alignment, u: Word)
    requires Partitioned(a) && c in Next(v, a, k)
    ensures CountIn(c, u) == CountIn(a, u)
  {
    if HasEqPair(v, DelWords(a), InsWords(a)) {
      NextEqFirst(v, a, k);
      var x, y :| Del(x) in a && Ins(y) in a && EqMatch(v, x, y) && c == EqCandidate(a, x, y);
      EqCandidateCoverage(a, x, y, u);
    } else {
      assert DelCount(a) > 0;
      var p, q := NextSubMember(v, a, k, c);
      SubGroupsFromAlignment(a, k, p);
      SubGroupsNoDup(a, k, p, q);
      SubCandidateCoverage(a, SubDels(a, k)[p], SubInss(a, k)[q], u);
    }
  }

  /** Hence `next` keeps the alignment partitioned. */
  lemma NextPartitioned(v: Variant, a: Alignment, k: int, c: Alignment)
    requires Partitioned(a) && c in Next(v, a, k)
    ensures Partitioned(c)
  {
    forall u ensures CountIn(c, u) <= 1 {
      NextCoverage(v, a, k, c, u);
    }
  }

  /** Exact text equality implies equality after stripping punctuation, so
      the older copy pairs a subset of what the package copy pairs. */
  lemma LegacyMatchImpliesPackageMatch(strip: string -> string, dels: seq<Word>, inss: seq<Word>)
    ensures forall x, y :: EqMatch(Legacy, x, y) ==> EqMatch(Package(strip), x, y)
    ensures HasEqPair(Legacy, dels, inss) ==> HasEqPair(Package(strip), dels, inss)
  {
  }
}
