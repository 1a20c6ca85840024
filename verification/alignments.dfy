/** An alignment is a collection of edits. The source keeps it in a map keyed
    by edit pointer and iterates it in no fixed order; here it is a sequence,
    one possible iteration order, and every order-free operation is shown not
    to depend on that order. Edits are immutable values, so `clone` is the
    identity and no operation can alias or mutate its input. */
module Alignments {
  import opened Base
  import opened Words
  import opened Edits

  type Alignment = seq<Edit>

  /** The edits of a for which p holds, in order. */
  function KeepIf(a: Alignment, p: Edit -> bool): (r: Alignment)
    ensures |r| <= |a|
    ensures forall e :: multiset(r)[e] == (if p(e) then multiset(a)[e] else 0)
    ensures forall e :: e in r <==> e in a && p(e)
  {
    if |a| == 0 then []
    else
      assert a == [a[0]] + a[1..];
      (if p(a[0]) then [a[0]] else []) + KeepIf(a[1..], p)
  }

  /** `filter`: the edits of one variant. */
  function Filter(a: Alignment, k: Kind): (r: Alignment)
    ensures forall e :: e in r ==> KindOf(e) == k
    ensures forall e :: KindOf(e) == k ==> multiset(r)[e] == multiset(a)[e]
  {
    KeepIf(a, e => KindOf(e) == k)
  }

  /** `Add`: the edits es join the alignment. */
  function Add(a: Alignment, es: seq<Edit>): Alignment
  {
    a + es
  }

  /** `remove`: drops the edits es. The source deletes map entries by pointer;
      here every edit equal to one of es is dropped, which is the same as long
      as no edit occurs twice (see `PartitionedEditsDistinct`). */
  function Remove(a: Alignment, es: seq<Edit>): Alignment
  {
    KeepIf(a, NotIn(es))
  }

  /** The test `remove` applies: the edit is not one of es. */
  function NotIn(es: seq<Edit>): Edit -> bool
  {
    e => e !in es
  }

  /** The words of the Del edits, in alignment order. */
  function DelWords(a: Alignment): seq<Word>
  {
    if |a| == 0 then []
    else
      assert a == [a[0]] + a[1..];
      (if a[0].Del? then [a[0].word] else []) + DelWords(a[1..])
  }

  /** The words of the Ins edits, in alignment order. */
  function InsWords(a: Alignment): seq<Word>
  {
    if |a| == 0 then []
    else
      assert a == [a[0]] + a[1..];
      (if a[0].Ins? then [a[0].word] else []) + InsWords(a[1..])
  }

  /** Number of Del edits: the measure that the greedy search decreases. */
  function DelCount(a: Alignment): nat
  {
    |DelWords(a)|
  }

  function InsCount(a: Alignment): nat
  {
    |InsWords(a)|
  }

  /** The Del words are exactly the words of the Del edits, and likewise for
      Ins. */
  lemma {:induction false} DelInsWordsMembers(a: Alignment, w: Word)
    ensures w in DelWords(a) <==> Del(w) in a
    ensures w in InsWords(a) <==> Ins(w) in a
  {
    if |a| > 0 {
      DelInsWordsMembers(a[1..], w);
      assert a == [a[0]] + a[1..];
    }
  }

  lemma {:induction false} DelWordsAppend(a: Alignment, b: Alignment)
    ensures DelWords(a + b) == DelWords(a) + DelWords(b)
    ensures InsWords(a + b) == InsWords(a) + InsWords(b)
  {
    if |a| == 0 {
      assert a + b == b;
    } else {
      assert (a + b)[0] == a[0];
      assert (a + b)[1..] == a[1..] + b;
      DelWordsAppend(a[1..], b);
    }
  }

  /** Dropping edits never adds Del edits, and dropping a Del edit strictly
      lowers their number. */
  lemma {:induction false} DelCountKeepIf(a: Alignment, p: Edit -> bool)
    ensures DelCount(KeepIf(a, p)) <= DelCount(a)
    ensures (exists e :: e in a && e.Del? && !p(e)) ==> DelCount(KeepIf(a, p)) < DelCount(a)
  {
    if |a| > 0 {
      DelCountKeepIf(a[1..], p);
      var rest := KeepIf(a[1..], p);
      DelWordsAppend(if p(a[0]) then [a[0]] else [], rest);
      DelWordsAppend([a[0]], a[1..]);
      assert a == [a[0]] + a[1..];
      if exists e :: e in a && e.Del? && !p(e) {
        var e :| e in a && e.Del? && !p(e);
        if e != a[0] {
          assert e in a[1..];
        }
      }
    }
  }

  // ---------------------------------------------------------------------------
  // Word coverage: the invariant that every word is used by at most one edit.

  /** How many times the edits of a use the word w, counted with repetition. */
  function CountIn(a: Alignment, w: Word): nat
  {
    if |a| == 0 then 0 else Occ(a[0], w) + CountIn(a[1..], w)
  }

  /** The alignment uses each word at most once: its edits partition the words
      they cover. */
  ghost predicate Partitioned(a: Alignment)
  {
    forall w :: CountIn(a, w) <= 1
  }

  lemma {:induction false} CountInAppend(a: Alignment, b: Alignment, w: Word)
    ensures CountIn(a + b, w) == CountIn(a, w) + CountIn(b, w)
  {
    if |a| == 0 {
      assert a + b == b;
    } else {
      assert (a + b)[1..] == a[1..] + b;
      CountInAppend(a[1..], b, w);
    }
  }

  lemma {:induction false} CountInMember(a: Alignment, e: Edit, w: Word)
    requires e in a
    ensures CountIn(a, w) >= Occ(e, w)
  {
    if a[0] != e {
      CountInMember(a[1..], e, w);
    }
  }

  /** Two different edits of a each contribute their uses of w. */
  lemma {:induction false} CountInTwoMembers(a: Alignment, e1: Edit, e2: Edit, w: Word)
    requires e1 in a && e2 in a && e1 != e2
    ensures CountIn(a, w) >= Occ(e1, w) + Occ(e2, w)
  {
    if a[0] == e1 {
      CountInMember(a[1..], e2, w);
    } else if a[0] == e2 {
      CountInMember(a[1..], e1, w);
    } else {
      CountInTwoMembers(a[1..], e1, e2, w);
    }
  }

  /** Keeping every edit that uses w keeps all uses of w. */
  lemma {:induction false} CountInKeepAll(a: Alignment, p: Edit -> bool, w: Word)
    requires forall e :: e in a && Occ(e, w) > 0 ==> p(e)
    ensures CountIn(KeepIf(a, p), w) == CountIn(a, w)
  {
    if |a| > 0 {
      assert a == [a[0]] + a[1..];
      CountInKeepAll(a[1..], p, w);
      CountInAppend(if p(a[0]) then [a[0]] else [], KeepIf(a[1..], p), w);
    }
  }

  /** Dropping every edit that uses w drops all uses of w. */
  lemma {:induction false} CountInKeepNone(a: Alignment, p: Edit -> bool, w: Word)
    requires forall e :: e in a && Occ(e, w) > 0 ==> !p(e)
    ensures CountIn(KeepIf(a, p), w) == 0
  {
    if |a| > 0 {
      assert a == [a[0]] + a[1..];
      CountInKeepNone(a[1..], p, w);
      CountInAppend(if p(a[0]) then [a[0]] else [], KeepIf(a[1..], p), w);
    }
  }

  /** Each Del or Ins word occurrence is a use of that word. */
  lemma {:induction false} DelInsWordsBound(a: Alignment, w: Word)
    ensures multiset(DelWords(a))[w] + multiset(InsWords(a))[w] <= CountIn(a, w)
  {
    if |a| > 0 {
      DelInsWordsBound(a[1..], w);
      assert a == [a[0]] + a[1..];
    }
  }

  /** In a partitioned alignment, no edit that uses a word occurs twice, so
      removing by value and removing by pointer agree. */
  lemma {:induction false} PartitionedEditsDistinct(a: Alignment, i: nat, j: nat)
    requires Partitioned(a)
    requires i < j < |a| && |WordsOf(a[i])| > 0
    ensures a[i] != a[j]
  {
    var w := WordsOf(a[i])[0];
    if a[i] == a[j] {
      assert Occ(a[i], w) >= 1;
      assert a == a[..j] + a[j..];
      CountInAppend(a[..j], a[j..], w);
      assert a[i] in a[..j];
      CountInMember(a[..j], a[i], w);
      assert false;
    }
  }

  // ---------------------------------------------------------------------------
  // Content-based membership and accuracy.

  /** The IDs of a word group (the keys `equalSub` sets in its map). */
  function IdSet(ws: seq<Word>): (m: set<string>)
    ensures forall id :: id in m <==> exists w :: w in ws && w.id == id
  {
    if |ws| == 0 then {}
    else
      assert ws == [ws[0]] + ws[1..];
      {ws[0].id} + IdSet(ws[1..])
  }

  /** Every word of ws has its ID in m (the check loop of `equalSub`). */
  function AllIdsIn(ws: seq<Word>, m: set<string>): (r: bool)
    ensures r <==> forall w :: w in ws ==> w.id in m
  {
    if |ws| == 0 then true
    else
      assert ws == [ws[0]] + ws[1..];
      ws[0].id in m && AllIdsIn(ws[1..], m)
  }

  /** `equalSub(s, t)`: every source word of t has the ID of a source word of s,
      and every target word of t has the ID of some word of s on either side.
      It compares IDs only, and as subsets rather than as equal sets. */
  function EqualSub(s: Edit, t: Edit): (r: bool)
    requires s.Sub? && t.Sub?
    ensures r <==>
      (forall w :: w in t.froms ==> exists v :: v in s.froms && v.id == w.id) &&
      (forall w :: w in t.tos ==> exists v :: v in s.froms + s.tos && v.id == w.id)
  {
    var fromIds := IdSet(s.froms);
    if !AllIdsIn(t.froms, fromIds) then false
    else
      var allIds := fromIds + IdSet(s.tos);
      assert forall id :: id in allIds <==> exists v :: v in s.froms + s.tos && v.id == id;
      AllIdsIn(t.tos, allIds)
  }

  /** `equalSub` is reflexive. */
  lemma EqualSubReflexive(s: Edit)
    requires s.Sub?
    ensures EqualSub(s, s)
  {
    assert forall w :: w in s.tos ==> w in s.froms + s.tos;
  }

  /** `equalSub` ignores the order (and repetition) of the words on each side:
      only the sets of words matter. */
  lemma EqualSubOrderIndependent(s: Edit, t: Edit, s': Edit, t': Edit)
    requires s.Sub? && t.Sub? && s'.Sub? && t'.Sub?
    requires forall w :: w in s.froms <==> w in s'.froms
    requires forall w :: w in s.tos <==> w in s'.tos
    requires forall w :: w in t.froms <==> w in t'.froms
    requires forall w :: w in t.tos <==> w in t'.tos
    ensures EqualSub(s, t) == EqualSub(s', t')
  {
    assert forall w :: w in s.froms + s.tos <==> w in s'.froms + s'.tos;
  }

  /** `equalSub` is not symmetric: a substitution whose target repeats one of
      its own source words is matched by a substitution with another target,
      but not the other way round. */
  lemma EqualSubNotSymmetric(a: Word, b: Word)
    requires a.id != b.id
    ensures EqualSub(Sub([a], [b]), Sub([a], [a]))
    ensures !EqualSub(Sub([a], [a]), Sub([a], [b]))
  {
    assert IdSet([a]) == {a.id} + IdSet([]);
    assert b in [b] && !(exists v :: v in [a] + [a] && v.id == b.id);
  }

  /** The content comparison `includes` applies to one stored edit k and the
      probed edit e: same variant, then the texts of the words for Ins, Del
      and Eq, and `equalSub` for Sub. */
  function EditMatches(k: Edit, e: Edit): bool
  {
    match (k, e)
    case (Ins(x), Ins(y)) => x.text == y.text
    case (Del(x), Del(y)) => x.text == y.text
    case (Eq(f1, t1), Eq(f2, t2)) => f1.text == f2.text && t1.text == t2.text
    case (Sub(_, _), Sub(_, _)) => EqualSub(k, e)
    case _ => false
  }

  lemma EditMatchesSameKind(k: Edit, e: Edit)
    requires EditMatches(k, e)
    ensures KindOf(k) == KindOf(e)
  {
  }

  lemma EditMatchesReflexive(e: Edit)
    ensures EditMatches(e, e)
  {
    if e.Sub? {
      EqualSubReflexive(e);
    }
  }

  /** `includes`: some edit of a matches e by content. */
  function Includes(a: Alignment, e: Edit): (r: bool)
    ensures r <==> exists k :: k in a && EditMatches(k, e)
  {
    if |a| == 0 then false
    else
      assert a == [a[0]] + a[1..];
      EditMatches(a[0], e) || Includes(a[1..], e)
  }

  /** An alignment includes every edit it was built from. */
  lemma IncludesOwnEdits(a: Alignment, e: Edit)
    requires e in a
    ensures Includes(a, e)
  {
    EditMatchesReflexive(e);
  }

  /** `includes` does not depend on the iteration order of the alignment. */
  lemma IncludesOrderFree(a: Alignment, b: Alignment, e: Edit)
    requires multiset(a) == multiset(b)
    ensures Includes(a, e) == Includes(b, e)
  {
    forall k ensures k in a <==> k in b {
      assert k in a <==> k in multiset(a);
      assert k in b <==> k in multiset(b);
    }
  }

  /** Number of edits of std that a includes. */
  function CountIncluded(a: Alignment, std: Alignment): (n: nat)
    ensures n <= |std|
    ensures n == |std| <==> forall e :: e in std ==> Includes(a, e)
  {
    if |std| == 0 then 0
    else
      assert std == [std[0]] + std[1..];
      var rest := CountIncluded(a, std[1..]);
      assert (forall e :: e in std ==> Includes(a, e)) <==>
             Includes(a, std[0]) && forall e :: e in std[1..] ==> Includes(a, e);
      (if Includes(a, std[0]) then 1 else 0) + rest
  }

  /** `EditsAccuracy`: the fraction of the reference edits std that a includes.
      The source divides by the number of reference edits, which is undefined
      for an empty reference. */
  function EditsAccuracy(a: Alignment, std: Alignment): (r: real)
    requires |std| > 0
    ensures 0.0 <= r <= 1.0
    ensures r == 1.0 <==> forall e :: e in std ==> Includes(a, e)
  {
    var n := CountIncluded(a, std);
    RatioAtMostOne(n as real, |std| as real);
    (n as real) / (|std| as real)
  }


  /** An alignment compared with itself has accuracy 1. */
  lemma EditsAccuracySelf(a: Alignment)
    requires |a| > 0
    ensures EditsAccuracy(a, a) == 1.0
  {
    forall e | e in a ensures Includes(a, e) {
      IncludesOwnEdits(a, e);
    }
  }

  /** The accuracy does not depend on the iteration order of the candidate. */
  lemma {:induction false} CountIncludedOrderFree(a: Alignment, b: Alignment, std: Alignment)
    requires multiset(a) == multiset(b)
    ensures CountIncluded(a, std) == CountIncluded(b, std)
  {
    if |std| > 0 {
      IncludesOrderFree(a, b, std[0]);
      CountIncludedOrderFree(a, b, std[1..]);
    }
  }

  // ---------------------------------------------------------------------------
  // Problems and initial alignments.

  /** An alignment problem: the source and target word bags, keyed by ID. */
  datatype Problem = Problem(from: map<string, Word>, to: map<string, Word>)

  /** order lists every key of the set exactly once (a map iteration order). */
  ghost predicate IsEnumeration(order: seq<string>, keys: set<string>)
  {
    && (forall k :: k in order <==> k in keys)
    && (forall i, j :: 0 <= i < j < |order| ==> order[i] != order[j])
  }

  /** A word bag as the loader builds it: every word is stored under its ID. */
  predicate WellFormedBag(m: map<string, Word>)
  {
    forall k :: k in m ==> m[k].id == k
  }

  function BagWords(m: map<string, Word>, order: seq<string>): (r: seq<Word>)
    requires forall k :: k in order ==> k in m
    ensures |r| == |order|
    ensures forall i :: 0 <= i < |order| ==> r[i] == m[order[i]]
  {
    seq(|order|, i requires 0 <= i < |order| => m[order[i]])
  }

  function DelsOf(ws: seq<Word>): (r: Alignment)
    ensures |r| == |ws| && forall i :: 0 <= i < |ws| ==> r[i] == Del(ws[i])
  {
    seq(|ws|, i requires 0 <= i < |ws| => Del(ws[i]))
  }

  function InssOf(ws: seq<Word>): (r: Alignment)
    ensures |r| == |ws| && forall i :: 0 <= i < |ws| ==> r[i] == Ins(ws[i])
  {
    seq(|ws|, i requires 0 <= i < |ws| => Ins(ws[i]))
  }

  /** `NewFromWordBags`: one Del per source word and one Ins per target word,
      visiting the bags in the given iteration orders. */
  function NewFromWordBags(p: Problem, fromOrder: seq<string>, toOrder: seq<string>): (r: Alignment)
    requires IsEnumeration(fromOrder, p.from.Keys) && IsEnumeration(toOrder, p.to.Keys)
    ensures forall e :: e in r ==> e.Del? || e.Ins?
    ensures forall w :: Del(w) in r <==> w in p.from.Values
    ensures forall w :: Ins(w) in r <==> w in p.to.Values
    ensures |r| == |fromOrder| + |toOrder|
  {
    var r := DelsOf(BagWords(p.from, fromOrder)) + InssOf(BagWords(p.to, toOrder));
    assert forall w :: w in p.from.Values ==> Del(w) in r by {
      forall w | w in p.from.Values ensures Del(w) in r {
        var k :| k in p.from && p.from[k] == w;
        var i :| 0 <= i < |fromOrder| && fromOrder[i] == k;
        assert r[i] == Del(w);
      }
    }
    assert forall w :: w in p.to.Values ==> Ins(w) in r by {
      forall w | w in p.to.Values ensures Ins(w) in r {
        var k :| k in p.to && p.to[k] == w;
        var i :| 0 <= i < |toOrder| && toOrder[i] == k;
        assert r[|fromOrder| + i] == Ins(w);
      }
    }
    r
  }

  /** Single-word edits whose words have pairwise distinct IDs use every word
      at most once. */
  lemma {:induction false} SingletonEditsPartitioned(es: Alignment, w: Word)
    requires forall e :: e in es ==> e.Del? || e.Ins?
    requires forall i, j :: 0 <= i < j < |es| ==> es[i].word.id != es[j].word.id
    ensures CountIn(es, w) <= 1
  {
    if |es| > 0 {
      SingletonEditsPartitioned(es[1..], w);
      if es[0].word == w {
        forall e | e in es[1..] ensures Occ(e, w) == 0 {
          var j :| 0 <= j < |es[1..]| && es[1..][j] == e;
          assert es[j + 1] == e;
          assert WordsOf(e) == [e.word];
        }
        CountInZero(es[1..], w);
      } else {
        assert WordsOf(es[0]) == [es[0].word];
      }
    }
  }

  lemma {:induction false} CountInZero(a: Alignment, w: Word)
    requires forall e :: e in a ==> Occ(e, w) == 0
    ensures CountIn(a, w) == 0
  {
    if |a| > 0 {
      CountInZero(a[1..], w);
    }
  }

  /** In a fresh alignment over a well-formed problem the edits carry
      pairwise distinct word IDs. */
  lemma FreshIdsDistinct(p: Problem, fromOrder: seq<string>, toOrder: seq<string>, i: nat, j: nat)
    requires IsEnumeration(fromOrder, p.from.Keys) && IsEnumeration(toOrder, p.to.Keys)
    requires WellFormedBag(p.from) && WellFormedBag(p.to) && p.from.Keys !! p.to.Keys
    requires i < j < |fromOrder| + |toOrder|
    ensures var r := DelsOf(BagWords(p.from, fromOrder)) + InssOf(BagWords(p.to, toOrder));
      r[i].word.id != r[j].word.id
  {
    var fw := BagWords(p.from, fromOrder);
    var tw := BagWords(p.to, toOrder);
    var n := |fw|;
    var r := DelsOf(fw) + InssOf(tw);
    if j < n {
      assert r[i] == Del(fw[i]) && r[j] == Del(fw[j]);
      assert fw[i].id == fromOrder[i] && fw[j].id == fromOrder[j];
    } else if i >= n {
      assert r[i] == Ins(tw[i - n]) && r[j] == Ins(tw[j - n]);
      assert tw[i - n].id == toOrder[i - n] && tw[j - n].id == toOrder[j - n];
    } else {
      assert r[i] == Del(fw[i]) && r[j] == Ins(tw[j - n]);
      assert fw[i].id == fromOrder[i] && tw[j - n].id == toOrder[j - n];
      assert fromOrder[i] in p.from.Keys && toOrder[j - n] in p.to.Keys;
    }
  }

  /** A fresh alignment over a well-formed problem (source and target words
      stored under their own, disjoint IDs) starts out partitioned. */
  lemma NewFromWordBagsPartitioned(p: Problem, fromOrder: seq<string>, toOrder: seq<string>)
    requires IsEnumeration(fromOrder, p.from.Keys) && IsEnumeration(toOrder, p.to.Keys)
    requires WellFormedBag(p.from) && WellFormedBag(p.to) && p.from.Keys !! p.to.Keys
    ensures Partitioned(NewFromWordBags(p, fromOrder, toOrder))
  {
    var r := DelsOf(BagWords(p.from, fromOrder)) + InssOf(BagWords(p.to, toOrder));
    assert r == NewFromWordBags(p, fromOrder, toOrder);
    forall i, j | 0 <= i < j < |r| ensures r[i].word.id != r[j].word.id {
      FreshIdsDistinct(p, fromOrder, toOrder, i, j);
    }
    forall w ensures CountIn(r, w) <= 1 {
      SingletonEditsPartitioned(r, w);
    }
  }

  /** `NewFromEdits`: the alignment made of the given edits. */
  function NewFromEdits(es: seq<Edit>): Alignment
  {
    es
  }
}
