/** The JSON form of edits: every edit becomes a type tag with the IDs of its
    source and target words, and an alignment is exploded into two maps keyed
    by word ID, one for source words and one for target words. */
module Json {
  import opened Words
  import opened Edits
  import opened Alignments

  /** `JSONEdit`: the type tag and the ID lists of the two sides. */
  datatype JSONEdit = JSONEdit(kind: string, source: seq<string>, target: seq<string>)

  type IdMap = map<string, JSONEdit>

  /** `removeAt`: a copy of a without position i. */
  function RemoveAt(i: nat, a: seq<string>): (r: seq<string>)
    requires i < |a|
    ensures |r| == |a| - 1
    ensures forall j :: 0 <= j < |r| ==> r[j] == (if j < i then a[j] else a[j + 1])
  {
    a[..i] + a[i + 1..]
  }

  /** Removing a position loses exactly the element there. */
  lemma RemoveAtMultiset(i: nat, a: seq<string>)
    requires i < |a|
    ensures multiset(RemoveAt(i, a)) + multiset{a[i]} == multiset(a)
  {
    assert a == a[..i] + [a[i]] + a[i + 1..];
  }

  /** Removing is the inverse of inserting at the same position. */
  lemma RemoveAtInsert(i: nat, a: seq<string>, x: string)
    requires i <= |a|
    ensures RemoveAt(i, a[..i] + [x] + a[i..]) == a
  {
    var b := a[..i] + [x] + a[i..];
    assert b[..i] == a[..i] && b[i + 1..] == a[i..];
  }

  /** The IDs of words, in order. */
  function Ids(ws: seq<Word>): (r: seq<string>)
    ensures |r| == |ws|
    ensures forall i :: 0 <= i < |ws| ==> r[i] == ws[i].id
  {
    seq(|ws|, i requires 0 <= i < |ws| => ws[i].id)
  }

  function KindTag(k: Kind): string
  {
    match k
    case InsKind => "ins"
    case DelKind => "del"
    case EqKind => "eq"
    case SubKind => "sub"
  }

  /** `ToJSONEdit` of the four edit kinds. */
  function ToJSONEdit(e: Edit): (r: JSONEdit)
    ensures r.kind == KindTag(KindOf(e))
    ensures r.source == Ids(GetWords(e).0) && r.target == Ids(GetWords(e).1)
  {
    match e
    case Ins(w) => JSONEdit("ins", [], [w.id])
    case Del(w) => JSONEdit("del", [w.id], [])
    case Eq(f, t) => JSONEdit("eq", [f.id], [t.id])
    case Sub(fs, ts) => JSONEdit("sub", Ids(fs), Ids(ts))
  }

  /** The type tag tells the kind of the edit back. */
  lemma KindTagInjective(e: Edit, e': Edit)
    ensures ToJSONEdit(e).kind == ToJSONEdit(e').kind <==> KindOf(e) == KindOf(e')
  {
  }

  // ---------------------------------------------------------------------------
  // Explode

  /** One loop of `Explode` over the first n IDs: each ID is mapped to the
      edit seen from that word, with the ID dropped from its own side. A later
      occurrence of the same ID overwrites an earlier one. */
  function ExplodeSide(kind: string, ids: seq<string>, other: seq<string>, n: nat): IdMap
    requires n <= |ids|
  {
    if n == 0 then map[]
    else ExplodeSide(kind, ids, other, n - 1)[ids[n - 1] := JSONEdit(kind, RemoveAt(n - 1, ids), other)]
  }

  /** `Explode`: the source-side map and the target-side map. On the target
      side the source list holds the other target IDs and the target list the
      source IDs. */
  function Explode(e: JSONEdit): (IdMap, IdMap)
  {
    (ExplodeSide(e.kind, e.source, e.target, |e.source|), ExplodeSide(e.kind, e.target, e.source, |e.target|))
  }

  /** The keys of an exploded side are the IDs of that side. */
  lemma {:induction false} ExplodeSideKeys(kind: string, ids: seq<string>, other: seq<string>, n: nat)
    requires n <= |ids|
    ensures forall k :: k in ExplodeSide(kind, ids, other, n) <==> k in ids[..n]
  {
    if n > 0 {
      ExplodeSideKeys(kind, ids, other, n - 1);
      assert ids[..n] == ids[..n - 1] + [ids[n - 1]];
    }
  }

  /** The entry of a key is the edit with the last position holding that key
      removed. */
  lemma {:induction false} ExplodeSideValue(kind: string, ids: seq<string>, other: seq<string>, n: nat, j: nat)
    requires j < n <= |ids|
    requires forall j' :: j < j' < n ==> ids[j'] != ids[j]
    ensures ids[j] in ExplodeSide(kind, ids, other, n)
    ensures ExplodeSide(kind, ids, other, n)[ids[j]] == JSONEdit(kind, RemoveAt(j, ids), other)
  {
    if j < n - 1 {
      ExplodeSideValue(kind, ids, other, n - 1, j);
    }
  }

  /** Every entry of an exploded side keeps the type and the other side, and
      its own side plus its key is the original side again. */
  lemma ExplodeSideEntries(kind: string, ids: seq<string>, other: seq<string>, k: string)
    requires k in ExplodeSide(kind, ids, other, |ids|)
    ensures var x := ExplodeSide(kind, ids, other, |ids|)[k];
      x.kind == kind && x.target == other && multiset(x.source) + multiset{k} == multiset(ids)
  {
    ExplodeSideKeys(kind, ids, other, |ids|);
    assert ids[..|ids|] == ids;
    var j := LastIndex(ids, k);
    ExplodeSideValue(kind, ids, other, |ids|, j);
    RemoveAtMultiset(j, ids);
  }

  /** The last position holding k. */
  lemma LastIndex(ids: seq<string>, k: string) returns (j: nat)
    requires k in ids
    ensures j < |ids| && ids[j] == k && forall j' :: j < j' < |ids| ==> ids[j'] != k
  {
    j := |ids| - 1;
    while ids[j] != k
      invariant j < |ids| && k in ids[..j + 1]
      invariant forall j' :: j < j' < |ids| ==> ids[j'] != k
      decreases j
    {
      assert ids[..j + 1] == ids[..j] + [ids[j]];
      j := j - 1;
    }
  }

  /** `Explode`: the source map is keyed by exactly the source IDs and the
      target map by exactly the target IDs; each source entry is the edit minus
      its key with the target list copied, and each target entry lists the
      other target IDs as source and the source IDs as target. */
  lemma ExplodeSpec(e: JSONEdit)
    ensures forall k :: k in Explode(e).0 <==> k in e.source
    ensures forall k :: k in Explode(e).1 <==> k in e.target
    ensures forall k :: k in Explode(e).0 ==>
      Explode(e).0[k].kind == e.kind && Explode(e).0[k].target == e.target
      && multiset(Explode(e).0[k].source) + multiset{k} == multiset(e.source)
    ensures forall k :: k in Explode(e).1 ==>
      Explode(e).1[k].kind == e.kind && Explode(e).1[k].target == e.source
      && multiset(Explode(e).1[k].source) + multiset{k} == multiset(e.target)
  {
    ExplodeSideKeys(e.kind, e.source, e.target, |e.source|);
    ExplodeSideKeys(e.kind, e.target, e.source, |e.target|);
    assert e.source[..|e.source|] == e.source && e.target[..|e.target|] == e.target;
    forall k | k in Explode(e).0
      ensures Explode(e).0[k].kind == e.kind && Explode(e).0[k].target == e.target
      && multiset(Explode(e).0[k].source) + multiset{k} == multiset(e.source)
    {
      ExplodeSideEntries(e.kind, e.source, e.target, k);
    }
    forall k | k in Explode(e).1
      ensures Explode(e).1[k].kind == e.kind && Explode(e).1[k].target == e.source
      && multiset(Explode(e).1[k].source) + multiset{k} == multiset(e.target)
    {
      ExplodeSideEntries(e.kind, e.target, e.source, k);
    }
  }

  /** With distinct IDs, the entry of the word at position j is the edit with
      exactly position j removed. */
  lemma ExplodeDistinct(e: JSONEdit, j: nat)
    requires j < |e.source|
    requires forall i, i' :: 0 <= i < i' < |e.source| ==> e.source[i] != e.source[i']
    ensures e.source[j] in Explode(e).0
    ensures Explode(e).0[e.source[j]] == JSONEdit(e.kind, RemoveAt(j, e.source), e.target)
  {
    ExplodeSideValue(e.kind, e.source, e.target, |e.source|, j);
  }

  // ---------------------------------------------------------------------------
  // ToJSONEdits

  /** Entries of m are added to acc only under keys acc does not have yet. */
  function FirstWins(acc: IdMap, m: IdMap): (r: IdMap)
    ensures forall k :: k in r <==> k in acc || k in m
    ensures forall k :: k in acc ==> r[k] == acc[k]
  {
    map k | k in acc.Keys + m.Keys :: if k in acc then acc[k] else m[k]
  }

  /** `ToJSONEdits`: the two maps after visiting the edits in the given
      (iteration) order, the earliest edit using a key winning it. */
  function ToJSONEdits(a: Alignment): (IdMap, IdMap)
  {
    if |a| == 0 then (map[], map[])
    else
      var prev := ToJSONEdits(a[..|a| - 1]);
      var ex := Explode(ToJSONEdit(a[|a| - 1]));
      (FirstWins(prev.0, ex.0), FirstWins(prev.1, ex.1))
  }

  /** The left (source) or right (target) half of a pair of maps. */
  function Pick(p: (IdMap, IdMap), left: bool): IdMap
  {
    if left then p.0 else p.1
  }

  /** The source or target IDs of a JSON edit. */
  function SideIds(j: JSONEdit, left: bool): seq<string>
  {
    if left then j.source else j.target
  }

  /** Edit i of a is the first to have k on the chosen side. */
  ghost predicate FirstUser(a: Alignment, left: bool, k: string, i: int)
  {
    0 <= i < |a| && k in SideIds(ToJSONEdit(a[i]), left) &&
    forall j :: 0 <= j < i ==> k !in SideIds(ToJSONEdit(a[j]), left)
  }

  lemma ExplodeKeys(e: JSONEdit, left: bool)
    ensures forall k :: k in Pick(Explode(e), left) <==> k in SideIds(e, left)
  {
    ExplodeSideKeys(e.kind, e.source, e.target, |e.source|);
    ExplodeSideKeys(e.kind, e.target, e.source, |e.target|);
    assert e.source[..|e.source|] == e.source && e.target[..|e.target|] == e.target;
  }

  /** The entry the explosion of e gives k on the chosen side. */
  function ExplodedEntry(e: JSONEdit, left: bool, k: string): JSONEdit
    requires k in SideIds(e, left)
  {
    ExplodeKeys(e, left);
    Pick(Explode(e), left)[k]
  }

  lemma ToJSONEditsStep(a: Alignment, left: bool)
    requires |a| > 0
    ensures Pick(ToJSONEdits(a), left)
      == FirstWins(Pick(ToJSONEdits(a[..|a| - 1]), left), Pick(Explode(ToJSONEdit(a[|a| - 1])), left))
  {
  }

  /** The left map is keyed by exactly the source IDs of all edits and the
      right map by exactly their target IDs. */
  lemma {:induction false} ToJSONEditsKeys(a: Alignment, left: bool)
    ensures forall k :: k in Pick(ToJSONEdits(a), left) <==>
      exists i :: 0 <= i < |a| && k in SideIds(ToJSONEdit(a[i]), left)
  {
    if |a| > 0 {
      var b := a[..|a| - 1];
      var last := ToJSONEdit(a[|a| - 1]);
      ToJSONEditsKeys(b, left);
      ExplodeKeys(last, left);
      ToJSONEditsStep(a, left);
      var prev := Pick(ToJSONEdits(b), left);
      forall k ensures k in Pick(ToJSONEdits(a), left) <==>
        exists i :: 0 <= i < |a| && k in SideIds(ToJSONEdit(a[i]), left)
      {
        if k in prev {
          var i :| 0 <= i < |b| && k in SideIds(ToJSONEdit(b[i]), left);
          assert a[i] == b[i];
        } else if k in SideIds(last, left) {
          assert k in SideIds(ToJSONEdit(a[|a| - 1]), left);
        }
        if exists i :: 0 <= i < |a| && k in SideIds(ToJSONEdit(a[i]), left) {
          var i :| 0 <= i < |a| && k in SideIds(ToJSONEdit(a[i]), left);
          if i < |b| {
            assert b[i] == a[i];
          }
        }
      }
    }
  }

  /** The first writer wins: a key holds the exploded entry of the first edit
      that has it on that side. */
  lemma {:induction false} ToJSONEditsFirst(a: Alignment, left: bool, k: string, i: int)
    requires FirstUser(a, left, k, i)
    ensures k in Pick(ToJSONEdits(a), left)
    ensures Pick(ToJSONEdits(a), left)[k] == ExplodedEntry(ToJSONEdit(a[i]), left, k)
  {
    var b := a[..|a| - 1];
    ExplodeKeys(ToJSONEdit(a[|a| - 1]), left);
    ToJSONEditsStep(a, left);
    if i < |b| {
      assert b[i] == a[i];
      assert forall j :: 0 <= j < i ==> b[j] == a[j];
      ToJSONEditsFirst(b, left, k, i);
    } else {
      ToJSONEditsKeys(b, left);
      assert forall j :: 0 <= j < |b| ==> b[j] == a[j];
    }
  }

  // ---------------------------------------------------------------------------
  // MergeAlignments

  /** `MergeAlignments`: one alignment holding the edits of both. */
  function MergeAlignments(a: Alignment, b: Alignment): (r: Alignment)
    ensures forall e :: e in r <==> e in a || e in b
    ensures multiset(r) == multiset(a) + multiset(b)
  {
    NewFromEdits(a + b)
  }
}
