/** The feature functions that score a single edit. The Levenshtein distance,
    the Unicode normalisation, lower-casing, punctuation stripping, the two
    vocabularies and the commentary (scholia) index are collaborators the
    model does not look inside; they are gathered in an environment. */
module Features {
  import opened Base
  import opened Words
  import opened Edits

  /** The collaborators of the feature functions.
      - lev: edit distance on the runes of two strings;
      - normalize: canonical decomposition with combining marks removed;
      - toLower, removePunctuation: the Unicode case and punctuation maps;
      - voc, equivTerms: lemma to meanings, and lemma to equivalent terms;
      - prefixSearch: the commentary trie's keys that extend a text;
      - find: the commentary list stored under a trie key, if the key is
        present. */
  datatype Env = Env(
    lev: (string, string) -> nat,
    normalize: string -> string,
    toLower: string -> string,
    removePunctuation: string -> string,
    voc: map<string, seq<string>>,
    equivTerms: map<string, seq<string>>,
    prefixSearch: string -> seq<string>,
    find: string -> Option<seq<string>>)

  /** The only facts about the edit distance the model relies on. */
  ghost predicate LevAxioms(lev: (string, string) -> nat)
  {
    && (forall s :: lev(s, s) == 0)
    && (forall s :: lev(s, "") == |s|)
    && (forall s :: lev("", s) == |s|)
  }

  /** A missing dictionary key reads as the empty list of meanings. */
  function Lookup(m: map<string, seq<string>>, k: string): (r: seq<string>)
    ensures k !in m ==> r == []
  {
    if k in m then m[k] else []
  }

  // ---------------------------------------------------------------------------
  // Field distances.

  datatype Field = TextField | LemmaField | TagField

  function FieldOf(w: Word, f: Field): string
  {
    match f
    case TextField => w.text
    case LemmaField => w.lemmaForm
    case TagField => w.tag
  }

  /** One minus the edit distance relative to the longer byte length. Both
      strings empty is 0/0 in the source, a NaN, here None. The result is
      not clamped: an edit distance larger than the byte length would make it
      negative. */
  function FieldDistance(env: Env, s: string, t: string): (r: Option<real>)
    ensures r.None? <==> s == "" && t == ""
    ensures r.Some? ==> r.value <= 1.0
  {
    var m := MaxNat(ByteLen(s), ByteLen(t));
    if m == 0 then None
    else Some(Similarity(env.lev(s, t), m))
  }

  /** One minus a distance relative to a positive length. */
  function Similarity(d: nat, m: nat): (r: real)
    requires m > 0
    ensures r <= 1.0
  {
    1.0 - (d as real) / (m as real)
  }

  /** `distanceOnField`: the field distance between the summed source words
      and the summed target words of the edit. */
  function DistanceOnField(env: Env, e: Edit, f: Field): (r: Option<real>)
    ensures r.None? <==> FieldOf(SumWords(GetWords(e).0), f) == "" && FieldOf(SumWords(GetWords(e).1), f) == ""
    ensures r.Some? ==> r.value <= 1.0
    ensures LevAxioms(env.lev) && FieldOf(SumWords(GetWords(e).0), f) == FieldOf(SumWords(GetWords(e).1), f) != "" ==>
      r == Some(1.0)
  {
    var (from, to) := GetWords(e);
    var s := FieldOf(SumWords(from), f);
    FieldDistanceSame(env, s);
    FieldDistance(env, s, FieldOf(SumWords(to), f))
  }

  function LexicalSimilarity(env: Env, e: Edit): Option<real>
  {
    DistanceOnField(env, e, TextField)
  }

  function LemmaDistance(env: Env, e: Edit): Option<real>
  {
    DistanceOnField(env, e, LemmaField)
  }

  function TagDistance(env: Env, e: Edit): Option<real>
  {
    DistanceOnField(env, e, TagField)
  }

  /** A field compared with itself is at similarity 1 when the edit distance
      meets its axioms. */
  lemma FieldDistanceSame(env: Env, s: string)
    ensures LevAxioms(env.lev) && s != "" ==> FieldDistance(env, s, s) == Some(1.0)
  {
    if LevAxioms(env.lev) && s != "" {
      assert env.lev(s, s) == 0;
    }
  }

  /** Identical non-empty fields are at distance 1 (full similarity). */
  lemma FieldDistanceIdentical(env: Env, s: string)
    requires LevAxioms(env.lev) && s != ""
    ensures FieldDistance(env, s, s) == Some(1.0)
  {
  }

  lemma FieldDistanceEmptySource(env: Env, t: string)
    requires LevAxioms(env.lev) && t != ""
    ensures FieldDistance(env, "", t) == Some(Similarity(|t|, ByteLen(t)))
  {
    var n := ByteLen(t);
    var e: string := "";
    assert ByteLen(e) == 0;
    assert MaxNat(ByteLen(e), n) == n;
    assert n != 0;
    assert env.lev(e, t) == |t|;
  }

  lemma FieldDistanceEmptyTarget(env: Env, t: string)
    requires LevAxioms(env.lev) && t != ""
    ensures FieldDistance(env, t, "") == Some(Similarity(|t|, ByteLen(t)))
  {
    var n := ByteLen(t);
    var e: string := "";
    assert ByteLen(e) == 0;
    assert MaxNat(n, ByteLen(e)) == n;
    assert n != 0;
    assert env.lev(t, e) == |t|;
  }

  lemma OneMinusRatioZero(x: nat, n: nat)
    requires 0 < n && x <= n
    ensures Similarity(x, n) == 0.0 <==> x == n
  {
    RatioAtMostOne(x as real, n as real);
  }

  /** Against an empty field the similarity is 1 - runes/bytes: 0 exactly
      when the other field is ASCII, and positive for any Greek letter, since
      the distance counts runes while the divisor counts bytes. */
  lemma FieldDistanceAgainstEmpty(env: Env, t: string)
    requires LevAxioms(env.lev) && t != ""
    ensures FieldDistance(env, "", t) == Some(Similarity(|t|, ByteLen(t)))
    ensures FieldDistance(env, t, "") == FieldDistance(env, "", t)
    ensures FieldDistance(env, "", t) == Some(0.0) <==> IsAscii(t)
  {
    FieldDistanceEmptySource(env, t);
    FieldDistanceEmptyTarget(env, t);
    OneMinusRatioZero(|t|, ByteLen(t));
    ByteLenIsRuneCountIffAscii(t);
  }

  /** An inserted ASCII word is at distance 0 on every field it fills. */
  lemma DistanceOnFieldInsertedAscii(env: Env, w: Word)
    requires LevAxioms(env.lev) && w.text != "" && IsAscii(w.text)
    ensures LexicalSimilarity(env, Ins(w)) == Some(0.0)
    ensures LexicalSimilarity(env, Del(w)) == Some(0.0)
  {
    SumWordsSingleton(w);
    FieldDistanceAgainstEmpty(env, w.text);
  }

  /** Equal single words, and groups whose concatenated fields agree, are at
      similarity 1 ("a,a" against "aa" included). */
  lemma DistanceOnFieldSummedEqual(env: Env, e: Edit, f: Field)
    requires LevAxioms(env.lev)
    requires FieldOf(SumWords(GetWords(e).0), f) == FieldOf(SumWords(GetWords(e).1), f) != ""
    ensures DistanceOnField(env, e, f) == Some(1.0)
  {
    FieldDistanceIdentical(env, FieldOf(SumWords(GetWords(e).0), f));
  }

  lemma DistanceOnFieldExampleEq(env: Env, a: Word)
    requires LevAxioms(env.lev) && a.text == "a"
    ensures LexicalSimilarity(env, Eq(a, a)) == Some(1.0)
  {
    SumWordsSingleton(a);
  }

  lemma DistanceOnFieldExampleLonger(env: Env, a: Word, aa: Word)
    requires a.text == "a" && aa.text == "aa" && env.lev("a", "aa") == 1
    ensures LexicalSimilarity(env, Sub([a], [aa])) == Some(0.5)
  {
    SumWordsSingleton(a);
    SumWordsSingleton(aa);
    assert ByteLen("a") == 1;
    assert ByteLen("aa") == 2;
  }

  lemma DistanceOnFieldExampleSummed(env: Env, a: Word, aa: Word)
    requires LevAxioms(env.lev) && a.text == "a" && aa.text == "aa"
    ensures LexicalSimilarity(env, Sub([a, a], [aa])) == Some(1.0)
  {
    SumWordsSingleton(a);
    SumWordsSingleton(aa);
    SumWordsAppend([a], [a]);
    assert [a] + [a] == [a, a];
    var s := FieldOf(SumWords([a, a]), TextField);
    var t := FieldOf(SumWords([aa]), TextField);
    assert s == t == "aa";
    FieldDistanceIdentical(env, s);
  }

  // ---------------------------------------------------------------------------
  // Vocabulary features.

  /** The comparison form of a meaning: normalised, then lower-cased. */
  function Canon(env: Env, s: string): string
  {
    env.toLower(env.normalize(s))
  }

  /** Some meaning in b has the comparison form c. */
  function MatchesAny(env: Env, c: string, b: seq<string>): (r: bool)
    ensures r <==> exists j :: 0 <= j < |b| && Canon(env, b[j]) == c
  {
    if |b| == 0 then false
    else if Canon(env, b[0]) == c then true
    else
      var r := MatchesAny(env, c, b[1..]);
      assert r ==> exists j :: 0 <= j < |b| && Canon(env, b[j]) == c by {
        if r {
          var j :| 0 <= j < |b[1..]| && Canon(env, b[1..][j]) == c;
          assert b[j + 1] == b[1..][j];
        }
      }
      assert (exists j :: 0 <= j < |b| && Canon(env, b[j]) == c) ==> r by {
        if exists j :: 0 <= j < |b| && Canon(env, b[j]) == c {
          var j :| 0 <= j < |b| && Canon(env, b[j]) == c;
          assert j > 0;
          assert b[1..][j - 1] == b[j];
        }
      }
      r
  }

  function AnyPairMatches(env: Env, a: seq<string>, b: seq<string>): (r: bool)
    ensures r <==> exists i, j :: 0 <= i < |a| && 0 <= j < |b| && Canon(env, a[i]) == Canon(env, b[j])
  {
    if |a| == 0 then false
    else if MatchesAny(env, Canon(env, a[0]), b) then true
    else
      var r := AnyPairMatches(env, a[1..], b);
      assert r ==> exists i, j :: 0 <= i < |a| && 0 <= j < |b| && Canon(env, a[i]) == Canon(env, b[j]) by {
        if r {
          var i, j :| 0 <= i < |a[1..]| && 0 <= j < |b| && Canon(env, a[1..][i]) == Canon(env, b[j]);
          assert a[i + 1] == a[1..][i];
        }
      }
      assert (exists i, j :: 0 <= i < |a| && 0 <= j < |b| && Canon(env, a[i]) == Canon(env, b[j])) ==> r by {
        if exists i, j :: 0 <= i < |a| && 0 <= j < |b| && Canon(env, a[i]) == Canon(env, b[j]) {
          var i, j :| 0 <= i < |a| && 0 <= j < |b| && Canon(env, a[i]) == Canon(env, b[j]);
          assert i > 0;
          assert a[1..][i - 1] == a[i];
        }
      }
      r
  }

  /** `hasSameMeaning`: lists of different lengths never match; lists of equal
      length match when some meaning of the first and some meaning of the
      second agree after normalisation and lower-casing. */
  function HasSameMeaning(env: Env, a: seq<string>, b: seq<string>): (r: bool)
    ensures r <==> |a| == |b| && exists i, j :: 0 <= i < |a| && 0 <= j < |b| && Canon(env, a[i]) == Canon(env, b[j])
  {
    if |a| != |b| then false else AnyPairMatches(env, a, b)
  }

  /** A non-empty list of meanings has the same meaning as itself. */
  lemma HasSameMeaningReflexive(env: Env, a: seq<string>)
    requires |a| > 0
    ensures HasSameMeaning(env, a, a)
  {
    assert Canon(env, a[0]) == Canon(env, a[0]);
  }

  lemma HasSameMeaningSymmetric(env: Env, a: seq<string>, b: seq<string>)
    ensures HasSameMeaning(env, a, b) == HasSameMeaning(env, b, a)
  {
    if HasSameMeaning(env, a, b) {
      var i, j :| 0 <= i < |a| && 0 <= j < |b| && Canon(env, a[i]) == Canon(env, b[j]);
      assert Canon(env, b[j]) == Canon(env, a[i]);
    }
    if HasSameMeaning(env, b, a) {
      var i, j :| 0 <= i < |b| && 0 <= j < |a| && Canon(env, b[i]) == Canon(env, a[j]);
      assert Canon(env, a[j]) == Canon(env, b[i]);
    }
  }

  /** `VocDistance`: 1 when an Eq, or a one-word-to-one-word Sub, joins lemmas
      whose vocabulary meanings match; 0 for everything else. */
  function VocDistance(env: Env, e: Edit): (r: real)
    ensures r == 0.0 || r == 1.0
    ensures r == 1.0 ==> e.Eq? || (e.Sub? && |e.froms| == 1 && |e.tos| == 1)
  {
    match e
    case Eq(f, t) =>
      if HasSameMeaning(env, Lookup(env.voc, f.lemmaForm), Lookup(env.voc, t.lemmaForm)) then 1.0 else 0.0
    case Sub(fs, ts) =>
      if |fs| == 1 && |ts| == 1 && HasSameMeaning(env, Lookup(env.voc, fs[0].lemmaForm), Lookup(env.voc, ts[0].lemmaForm))
      then 1.0 else 0.0
    case _ => 0.0
  }

  /** `EqEquivTermDistance`: like VocDistance, but the target lemma itself is
      compared, as a one-element list, with the source lemma's equivalent
      terms. */
  function EqEquivTermDistance(env: Env, e: Edit): (r: real)
    ensures r == 0.0 || r == 1.0
    ensures r == 1.0 ==> e.Eq? || (e.Sub? && |e.froms| == 1 && |e.tos| == 1)
  {
    match e
    case Eq(f, t) =>
      if HasSameMeaning(env, Lookup(env.equivTerms, f.lemmaForm), [t.lemmaForm]) then 1.0 else 0.0
    case Sub(fs, ts) =>
      if |fs| == 1 && |ts| == 1 && HasSameMeaning(env, Lookup(env.equivTerms, fs[0].lemmaForm), [ts[0].lemmaForm])
      then 1.0 else 0.0
    case _ => 0.0
  }

  /** An Eq, and the one-to-one Sub of the same two words, score 1 exactly
      when the vocabulary meanings of the two lemmas have the same meaning. */
  lemma VocDistanceMatch(env: Env, f: Word, t: Word)
    ensures VocDistance(env, Eq(f, t)) == 1.0 <==>
      HasSameMeaning(env, Lookup(env.voc, f.lemmaForm), Lookup(env.voc, t.lemmaForm))
    ensures VocDistance(env, Sub([f], [t])) == 1.0 <==>
      HasSameMeaning(env, Lookup(env.voc, f.lemmaForm), Lookup(env.voc, t.lemmaForm))
  {
    VocFeaturesEqAsSub(env, f, t);
  }

  /** Both vocabulary features see an Eq and the one-to-one Sub of the same two
      words alike. */
  lemma VocFeaturesEqAsSub(env: Env, f: Word, t: Word)
    ensures VocDistance(env, Eq(f, t)) == VocDistance(env, Sub([f], [t]))
    ensures EqEquivTermDistance(env, Eq(f, t)) == EqEquivTermDistance(env, Sub([f], [t]))
  {
  }

  /** An equivalent term matches exactly when the source lemma has a single
      equivalent term whose comparison form is the target lemma's. */
  lemma EqEquivTermMatch(env: Env, f: Word, t: Word)
    ensures EqEquivTermDistance(env, Eq(f, t)) == 1.0 <==>
      |Lookup(env.equivTerms, f.lemmaForm)| == 1 &&
      Canon(env, Lookup(env.equivTerms, f.lemmaForm)[0]) == Canon(env, t.lemmaForm)
  {
  }

  lemma VocDistanceExamples(env: Env, w: Word, x: Word, y: Word)
    requires |Lookup(env.voc, w.lemmaForm)| > 0
    requires forall i, j :: 0 <= i < |Lookup(env.voc, x.lemmaForm)| && 0 <= j < |Lookup(env.voc, y.lemmaForm)| ==>
      Canon(env, Lookup(env.voc, x.lemmaForm)[i]) != Canon(env, Lookup(env.voc, y.lemmaForm)[j])
    ensures VocDistance(env, Ins(w)) == 0.0 && VocDistance(env, Del(w)) == 0.0
    ensures VocDistance(env, Eq(w, w)) == 1.0
    ensures VocDistance(env, Sub([x], [y])) == 0.0
  {
    HasSameMeaningReflexive(env, Lookup(env.voc, w.lemmaForm));
  }

  // ---------------------------------------------------------------------------
  // Commentary (scholia) feature.

  /** The commentary lists stored under the given trie keys, put together in
      key order; a key the trie does not hold adds nothing. */
  function Gather(env: Env, keys: seq<string>): (r: seq<string>)
    ensures forall c :: c in r <==> exists i :: 0 <= i < |keys| && env.find(keys[i]).Some? && c in env.find(keys[i]).value
  {
    if |keys| == 0 then []
    else
      var here := if env.find(keys[0]).Some? then env.find(keys[0]).value else [];
      var rest := Gather(env, keys[1..]);
      assert forall i :: 1 <= i < |keys| ==> keys[i] == keys[1..][i - 1];
      forall c | c in rest
        ensures exists i :: 0 <= i < |keys| && env.find(keys[i]).Some? && c in env.find(keys[i]).value
      {
        var i :| 0 <= i < |keys[1..]| && env.find(keys[1..][i]).Some? && c in env.find(keys[1..][i]).value;
        assert keys[i + 1] == keys[1..][i];
      }
      forall c, i | 0 < i < |keys| && env.find(keys[i]).Some? && c in env.find(keys[i]).value
        ensures c in rest
      {
        assert keys[1..][i - 1] == keys[i];
      }
      here + rest
  }

  /** `getScholieEntries` on a text it has not seen: nothing for the empty
      text, otherwise the commentary stored under every trie key the text is
      a prefix of. The rest of the model scores edits with this lookup. */
  function ScholieEntries(env: Env, entry: string): (r: seq<string>)
    ensures entry == "" ==> r == []
    ensures forall c :: c in r <==>
      entry != "" && exists k :: k in env.prefixSearch(entry) && env.find(k).Some? && c in env.find(k).value
  {
    if entry == "" then []
    else
      var keys := env.prefixSearch(entry);
      var r := Gather(env, keys);
      forall c ensures c in r <==> exists k :: k in keys && env.find(k).Some? && c in env.find(k).value {
        if exists k :: k in keys && env.find(k).Some? && c in env.find(k).value {
          var k :| k in keys && env.find(k).Some? && c in env.find(k).value;
          var i :| 0 <= i < |keys| && keys[i] == k;
        }
      }
      r
  }

  /** `getScholieEntries` as the source writes it, with `scholiePrefixCache`
      as explicit state. On a miss the trie keys under the text are looked
      up; on a hit the cached list is used in their place, although what the
      cache holds is the commentary found on the earlier call, not keys. The
      new list replaces the cached one. */
  function CachedScholieEntries(env: Env, cache: map<string, seq<string>>, entry: string): (r: (seq<string>, map<string, seq<string>>))
    ensures r.1 == cache[entry := r.0]
    ensures entry !in cache ==> r.0 == ScholieEntries(env, entry)
  {
    var keys := if entry in cache then cache[entry] else env.prefixSearch(entry);
    var entries := if entry == "" || |keys| == 0 then [] else Gather(env, keys);
    (entries, cache[entry := entries])
  }

  /** The cache holds, for every text in it, that text's commentary. */
  ghost predicate CacheSound(env: Env, cache: map<string, seq<string>>)
  {
    forall k :: k in cache ==> cache[k] == ScholieEntries(env, k)
  }

  /** The cache as evidently intended: a hit returns what was stored, and a
      miss stores the fresh lookup. */
  function StoredScholieEntries(env: Env, cache: map<string, seq<string>>, entry: string): (r: (seq<string>, map<string, seq<string>>))
    ensures CacheSound(env, cache) ==> r.0 == ScholieEntries(env, entry) && CacheSound(env, r.1)
    ensures entry in cache ==> r.1 == cache
    ensures entry !in cache ==> r.1 == cache[entry := r.0]
  {
    if entry in cache then (cache[entry], cache)
    else
      var entries := ScholieEntries(env, entry);
      (entries, cache[entry := entries])
  }

  /** Starting from the empty cache, the intended cache gives the uncached
      answer on every call of a sequence of lookups. */
  lemma {:induction false} StoredScholieEntriesRun(env: Env, cache: map<string, seq<string>>, entries: seq<string>)
    requires CacheSound(env, cache)
    ensures CacheSound(env, StoredRun(env, cache, entries).1)
    ensures |StoredRun(env, cache, entries).0| == |entries|
    ensures forall i :: 0 <= i < |entries| ==> StoredRun(env, cache, entries).0[i] == ScholieEntries(env, entries[i])
    decreases |entries|
  {
    if |entries| > 0 {
      var (first, c1) := StoredScholieEntries(env, cache, entries[0]);
      StoredScholieEntriesRun(env, c1, entries[1..]);
      var rest := StoredRun(env, c1, entries[1..]).0;
      assert StoredRun(env, cache, entries).0 == [first] + rest;
      forall i | 1 <= i < |entries| ensures StoredRun(env, cache, entries).0[i] == ScholieEntries(env, entries[i]) {
        assert entries[i] == entries[1..][i - 1];
      }
    }
  }

  /** The answers of the intended cache to a sequence of lookups, and the
      cache left behind. */
  function StoredRun(env: Env, cache: map<string, seq<string>>, entries: seq<string>): (seq<seq<string>>, map<string, seq<string>>)
    decreases |entries|
  {
    if |entries| == 0 then ([], cache)
    else
      var (first, c1) := StoredScholieEntries(env, cache, entries[0]);
      var (rest, c2) := StoredRun(env, c1, entries[1..]);
      ([first] + rest, c2)
  }

  /** The second lookup of a text through the cache as written looks the
      first lookup's commentary up as trie keys. */
  lemma CachedSecondLookup(env: Env, cache: map<string, seq<string>>, entry: string)
    requires entry !in cache && entry != ""
    ensures var (first, c1) := CachedScholieEntries(env, cache, entry);
      first == ScholieEntries(env, entry) &&
      CachedScholieEntries(env, c1, entry).0 == Gather(env, first)
  {
  }

  /** Distance of the target text to one commentary entry, relative to the
      longer byte length; None is the NaN of two empty strings. */
  function EntryDistance(env: Env, target: string, t: string): (r: Option<real>)
    ensures r.Some? ==> r.value >= 0.0
    ensures r.None? <==> target == "" && t == ""
  {
    var m := MaxNat(ByteLen(t), ByteLen(target));
    if m == 0 then None else Some((env.lev(target, t) as real) / (m as real))
  }

  function EntryDistances(env: Env, target: string, ts: seq<string>): (ds: seq<Option<real>>)
    ensures |ds| == |ts|
    ensures forall i :: 0 <= i < |ts| ==> ds[i] == EntryDistance(env, target, ts[i])
  {
    seq(|ts|, i requires 0 <= i < |ts| => EntryDistance(env, target, ts[i]))
  }

  /** A running minimum that starts at +Inf. */
  datatype Bound = Unbounded | Finite(value: real)

  /** m is a defined value of ds no larger than any defined value. */
  ghost predicate IsDefinedMin(ds: seq<Option<real>>, m: real)
  {
    && (exists i :: 0 <= i < |ds| && ds[i] == Some(m))
    && (forall i :: 0 <= i < |ds| && ds[i].Some? ==> m <= ds[i].value)
  }

  ghost predicate AllUndefined(ds: seq<Option<real>>)
  {
    forall i :: 0 <= i < |ds| ==> ds[i].None?
  }

  /** The scan loop of `ScholieDistance`: keep a distance when it is not above
      the best so far (NaN never is), stop at a distance of 0. */
  function ScanScholie(ds: seq<Option<real>>, best: Bound): (r: Bound)
    requires forall i :: 0 <= i < |ds| && ds[i].Some? ==> ds[i].value >= 0.0
    requires best.Finite? ==> best.value >= 0.0
    ensures r.Unbounded? <==> best.Unbounded? && AllUndefined(ds)
    ensures r.Finite? ==> r.value >= 0.0
    ensures r.Finite? ==> forall i :: 0 <= i < |ds| && ds[i].Some? ==> r.value <= ds[i].value
    ensures r.Finite? && best.Finite? ==> r.value <= best.value
    ensures r.Finite? ==> (best.Finite? && r.value == best.value) || exists i :: 0 <= i < |ds| && ds[i] == Some(r.value)
  {
    if |ds| == 0 then best
    else
      var best' := if ds[0].Some? && (best.Unbounded? || ds[0].value <= best.value) then Finite(ds[0].value) else best;
      if ds[0] == Some(0.0) then best'
      else
        var r := ScanScholie(ds[1..], best');
        assert forall i :: 1 <= i < |ds| ==> ds[i] == ds[1..][i - 1];
        assert r.Finite? && (exists i :: 0 <= i < |ds[1..]| && ds[1..][i] == Some(r.value)) ==>
          exists i :: 0 <= i < |ds| && ds[i] == Some(r.value) by {
          if r.Finite? && exists i :: 0 <= i < |ds[1..]| && ds[1..][i] == Some(r.value) {
            var i :| 0 <= i < |ds[1..]| && ds[1..][i] == Some(r.value);
            assert ds[i + 1] == Some(r.value);
          }
        }
        r
  }

  /** The texts a non-insertion, non-deletion edit is scored on: the
      normalised summed source text (the lookup key) and the normalised summed
      target text. */
  function ScholieKey(env: Env, e: Edit): string
  {
    env.normalize(SumWords(GetWords(e).0).text)
  }

  function ScholieTarget(env: Env, e: Edit): string
  {
    env.normalize(SumWords(GetWords(e).1).text)
  }

  function ScholieDistances(env: Env, e: Edit): seq<Option<real>>
  {
    EntryDistances(env, ScholieTarget(env, e), ScholieEntries(env, ScholieKey(env, e)))
  }

  /** The scoring part of `ScholieDistance` for a given list of commentary
      entries: 1 for insertions and deletions. Otherwise one minus the
      smallest distance of the target text to an entry; with no entry (or
      only NaN distances) the running minimum stays +Inf, is reset to 1, and
      the result is 0. */
  function ScholieScore(env: Env, e: Edit, entries: seq<string>): (r: real)
    ensures e.Ins? || e.Del? ==> r == 1.0
    ensures !(e.Ins? || e.Del?) && AllUndefined(EntryDistances(env, ScholieTarget(env, e), entries)) ==> r == 0.0
    ensures !(e.Ins? || e.Del?) && !AllUndefined(EntryDistances(env, ScholieTarget(env, e), entries)) ==>
      exists m :: IsDefinedMin(EntryDistances(env, ScholieTarget(env, e), entries), m) && r == 1.0 - m
    ensures r <= 1.0
  {
    if e.Ins? || e.Del? then 1.0
    else
      var ds := EntryDistances(env, ScholieTarget(env, e), entries);
      var score := ScanScholie(ds, Unbounded);
      if score.Unbounded? then 1.0 - 1.0
      else
        assert IsDefinedMin(ds, score.value);
        1.0 - score.value
  }

  /** `ScholieDistance`, scored on the commentary of the source text. */
  function ScholieDistance(env: Env, e: Edit): (r: real)
    ensures e.Ins? || e.Del? ==> r == 1.0
    ensures !(e.Ins? || e.Del?) && AllUndefined(ScholieDistances(env, e)) ==> r == 0.0
    ensures !(e.Ins? || e.Del?) && !AllUndefined(ScholieDistances(env, e)) ==>
      exists m :: IsDefinedMin(ScholieDistances(env, e), m) && r == 1.0 - m
    ensures r <= 1.0
  {
    ScholieScore(env, e, ScholieEntries(env, ScholieKey(env, e)))
  }

  /** An instance of the cache fault: the text "x" has the single trie key
      "k", whose commentary is "c", and the edit maps "x" to "c". The first
      evaluation of `ScholieDistance` finds "c" and scores 1; the second
      looks "c" up as a trie key, finds nothing and scores 0. */
  lemma CachedScholieDistanceDiffers(w: Word, v: Word)
    requires w.text == "x" && v.text == "c"
    ensures var env := Env((a: string, b: string) => if a == b then 0 else |a| + |b|,
                           (a: string) => a, (a: string) => a, (a: string) => a, map[], map[],
                           (a: string) => if a == "x" then ["k"] else [],
                           (a: string) => if a == "k" then Some(["c"]) else None);
      var (first, c1) := CachedScholieEntries(env, map[], "x");
      var second := CachedScholieEntries(env, c1, "x").0;
      ScholieScore(env, Eq(w, v), first) == ScholieDistance(env, Eq(w, v)) == 1.0 &&
      ScholieScore(env, Eq(w, v), second) == 0.0
  {
    var env := Env((a: string, b: string) => if a == b then 0 else |a| + |b|,
                   (a: string) => a, (a: string) => a, (a: string) => a, map[], map[],
                   (a: string) => if a == "x" then ["k"] else [],
                   (a: string) => if a == "k" then Some(["c"]) else None);
    var e := Eq(w, v);
    SumWordsSingleton(w);
    SumWordsSingleton(v);
    assert ScholieKey(env, e) == "x" && ScholieTarget(env, e) == "c";
    var keys := env.prefixSearch("x");
    assert keys == ["k"] && keys[1..] == [];
    assert Gather(env, keys) == ["c"];
    var (first, c1) := CachedScholieEntries(env, map[], "x");
    assert first == ["c"];
    assert ByteLen("c") == 1;
    var ds := EntryDistances(env, "c", first);
    assert ds[0] == Some(0.0);
    assert ScholieEntries(env, ScholieKey(env, e)) == first;
    var second := CachedScholieEntries(env, c1, "x").0;
    assert c1["x"] == ["c"] && ["c"][1..] == [];
    assert second == Gather(env, ["c"]) == [];
  }

  /** The commentary index of the package's scholia test: "αειδε" carries
      the commentary ["αδε", "λεγε"]. The edit distance of the texts the rows
      compare is their Levenshtein distance over letters with insertion and
      deletion cost 1 and substitution cost 2, the default costs of the
      distance library the package calls: "αειδε" and "αδε" are 2 apart, and
      every other distinct pair among the three texts is 5 apart. */
  function ScholieTestEnv(): Env
  {
    Env((a: string, b: string) => if a == b then 0 else if (a == "αειδε" && b == "αδε") || (a == "αδε" && b == "αειδε") then 2 else 5,
        (a: string) => a, (a: string) => a, (a: string) => a, map[], map[],
        (a: string) => if a == "αειδε" then ["αειδε"] else [],
        (a: string) => if a == "αειδε" then Some(["αδε", "λεγε"]) else None)
  }

  /** The rows of the scholia test, evaluated in order on one cache, through
      the cache as written. They give 0.8, 0 and 0, the values the test
      expects: the first lookup finds the commentary, the second looks it up
      as keys and finds nothing, the third finds the empty list the second
      stored. */
  lemma ScholieTestRowsAsWritten(a: Word, d: Word, l: Word)
    requires a.text == "αειδε" && d.text == "αδε" && l.text == "λεγε"
    ensures var env := ScholieTestEnv();
      var (e2, c1) := CachedScholieEntries(env, map[], "αειδε");
      var (e3, c2) := CachedScholieEntries(env, c1, "αειδε");
      var (e4, c3) := CachedScholieEntries(env, c2, "αειδε");
      && ScholieScore(env, Sub([a], [a]), e2) == 0.8
      && ScholieScore(env, Sub([a], [d]), e3) == 0.0
      && ScholieScore(env, Sub([a], [l]), e4) == 0.0
  {
    var env := ScholieTestEnv();
    ScholieTestLookups();
    var (e2, c1) := CachedScholieEntries(env, map[], "αειδε");
    var (e3, c2) := CachedScholieEntries(env, c1, "αειδε");
    assert e2 == ["αδε", "λεγε"] && e3 == [] && CachedScholieEntries(env, c2, "αειδε").0 == [];
    ScholieTestDistances();
    ScholieTestScore(a, a, 0.2, 0.5);
    SumWordsSingleton(d);
    SumWordsSingleton(l);
    assert ScholieScore(env, Sub([a], [d]), []) == 0.0;
    assert ScholieScore(env, Sub([a], [l]), []) == 0.0;
  }

  /** The same rows scored on the uncached lookup give 0.8, 1 and 1: each of
      the last two targets is itself a commentary entry. */
  lemma ScholieTestRowsUncached(a: Word, d: Word, l: Word)
    requires a.text == "αειδε" && d.text == "αδε" && l.text == "λεγε"
    ensures ScholieDistance(ScholieTestEnv(), Sub([a], [a])) == 0.8
    ensures ScholieDistance(ScholieTestEnv(), Sub([a], [d])) == 1.0
    ensures ScholieDistance(ScholieTestEnv(), Sub([a], [l])) == 1.0
  {
    var env := ScholieTestEnv();
    ScholieTestLookups();
    ScholieTestDistances();
    SumWordsSingleton(a);
    ScholieTestScore(a, a, 0.2, 0.5);
    ScholieTestScore(a, d, 0.0, 0.625);
    ScholieTestScore(a, l, 0.625, 0.0);
    assert ScholieKey(env, Sub([a], [a])) == "αειδε";
    assert ScholieKey(env, Sub([a], [d])) == "αειδε";
    assert ScholieKey(env, Sub([a], [l])) == "αειδε";
  }

  /** The distances of the test's target texts to its two commentary
      entries, relative to the longer byte length (two bytes per Greek
      letter). */
  lemma ScholieTestDistances()
    ensures var env := ScholieTestEnv();
      && EntryDistance(env, "αειδε", "αδε") == Some(0.2)
      && EntryDistance(env, "αειδε", "λεγε") == Some(0.5)
      && EntryDistance(env, "αδε", "αδε") == Some(0.0)
      && EntryDistance(env, "αδε", "λεγε") == Some(0.625)
      && EntryDistance(env, "λεγε", "αδε") == Some(0.625)
      && EntryDistance(env, "λεγε", "λεγε") == Some(0.0)
  {
    assert ByteLen("αειδε") == 10 && ByteLen("αδε") == 6 && ByteLen("λεγε") == 8;
  }

  /** The three lookups of "αειδε" through the cache as written: the
      commentary, then nothing, then nothing. */
  lemma ScholieTestLookups()
    ensures var env := ScholieTestEnv();
      var (e2, c1) := CachedScholieEntries(env, map[], "αειδε");
      var (e3, c2) := CachedScholieEntries(env, c1, "αειδε");
      && e2 == ["αδε", "λεγε"] == ScholieEntries(env, "αειδε")
      && e3 == []
      && CachedScholieEntries(env, c2, "αειδε").0 == []
  {
    var env := ScholieTestEnv();
    var keys := env.prefixSearch("αειδε");
    assert keys == ["αειδε"] && keys[1..] == [];
    var cs := ["αδε", "λεγε"];
    assert Gather(env, keys) == cs;
    var (e2, c1) := CachedScholieEntries(env, map[], "αειδε");
    assert c1["αειδε"] == cs && cs[1..] == ["λεγε"] && cs[1..][1..] == [];
    assert Gather(env, cs) == [];
  }

  /** A row of the test whose target is at distances p and q from the two
      commentary entries scores one minus the smaller. */
  lemma ScholieTestScore(a: Word, t: Word, p: real, q: real)
    requires a.text == "αειδε" && t.text in ["αειδε", "αδε", "λεγε"]
    requires var env := ScholieTestEnv();
      EntryDistance(env, t.text, "αδε") == Some(p) && EntryDistance(env, t.text, "λεγε") == Some(q)
    ensures ScholieScore(ScholieTestEnv(), Sub([a], [t]), ["αδε", "λεγε"]) == 1.0 - (if p <= q then p else q)
  {
    var env := ScholieTestEnv();
    SumWordsSingleton(t);
    assert ScholieTarget(env, Sub([a], [t])) == t.text;
    var ds := EntryDistances(env, t.text, ["αδε", "λεγε"]);
    assert ds == [Some(p), Some(q)];
    assert ds[1..] == [Some(q)] && ds[1..][1..] == [];
    var best := Finite(p);
    var last := if q <= p then Finite(q) else best;
    assert ScanScholie(ds[1..][1..], last) == last;
    assert ScanScholie(ds, Unbounded) == Finite(if p <= q then p else q);
  }

  /** An edit whose source text has no commentary entry scores 0. */
  lemma ScholieDistanceNoEntry(env: Env, e: Edit)
    requires !(e.Ins? || e.Del?) && ScholieEntries(env, ScholieKey(env, e)) == []
    ensures ScholieDistance(env, e) == 0.0
  {
  }

  // ---------------------------------------------------------------------------
  // Combined features.

  /** `multiMax`: the largest defined value, starting from -Inf (None) and
      skipping NaN (None) entries, which compare false. */
  function MultiMax(vs: seq<Option<real>>): (r: Option<real>)
    ensures r.None? <==> AllUndefined(vs)
    ensures r.Some? ==> IsDefinedMax(vs, r.value)
  {
    MultiMaxFrom(vs, None)
  }

  ghost predicate IsDefinedMax(vs: seq<Option<real>>, m: real)
  {
    && (exists i :: 0 <= i < |vs| && vs[i] == Some(m))
    && (forall i :: 0 <= i < |vs| && vs[i].Some? ==> vs[i].value <= m)
  }

  function MultiMaxFrom(vs: seq<Option<real>>, cur: Option<real>): (r: Option<real>)
    ensures r.None? <==> cur.None? && AllUndefined(vs)
    ensures r.Some? ==> forall i :: 0 <= i < |vs| && vs[i].Some? ==> vs[i].value <= r.value
    ensures r.Some? && cur.Some? ==> cur.value <= r.value
    ensures r.Some? ==> r == cur || exists i :: 0 <= i < |vs| && vs[i] == r
  {
    if |vs| == 0 then cur
    else
      var cur' := if vs[0].Some? && (cur.None? || vs[0].value > cur.value) then vs[0] else cur;
      var r := MultiMaxFrom(vs[1..], cur');
      assert forall i :: 1 <= i < |vs| ==> vs[i] == vs[1..][i - 1];
      assert r.Some? && (exists i :: 0 <= i < |vs[1..]| && vs[1..][i] == r) ==>
        exists i :: 0 <= i < |vs| && vs[i] == r by {
        if r.Some? && exists i :: 0 <= i < |vs[1..]| && vs[1..][i] == r {
          var i :| 0 <= i < |vs[1..]| && vs[1..][i] == r;
          assert vs[i + 1] == r;
        }
      }
      r
  }

  function FeatureValues(env: Env, e: Edit): seq<Option<real>>
  {
    [LexicalSimilarity(env, e), LemmaDistance(env, e), TagDistance(env, e),
     Some(VocDistance(env, e)), Some(ScholieDistance(env, e)), Some(EqEquivTermDistance(env, e))]
  }

  /** `MaxDistance`: the largest of the six similarity features. It is always
      defined, because the vocabulary features never are NaN. */
  function MaxDistance(env: Env, e: Edit): (r: real)
    ensures IsDefinedMax(FeatureValues(env, e), r)
    ensures r >= VocDistance(env, e) && r >= ScholieDistance(env, e) && r >= EqEquivTermDistance(env, e)
  {
    var vs := FeatureValues(env, e);
    assert vs[3] == Some(VocDistance(env, e)) && vs[4] == Some(ScholieDistance(env, e));
    assert vs[5] == Some(EqEquivTermDistance(env, e));
    MultiMax(vs).value
  }

  /** `EditType`: a fixed weight per kind of edit; equalities weigh most,
      then deletions, then insertions and substitutions alike. */
  function EditType(e: Edit): (r: real)
    ensures r > 0.0
  {
    match e
    case Ins(_) => 1.0
    case Del(_) => 2.0
    case Eq(_, _) => 10.0
    case Sub(_, _) => 1.0
  }

  lemma EditTypeRanking(w: Word, v: Word, fs: seq<Word>, ts: seq<Word>)
    ensures EditType(Eq(w, v)) > EditType(Del(w)) > EditType(Ins(v))
    ensures EditType(Ins(v)) == EditType(Sub(fs, ts))
    ensures EditType(Eq(w, v)) == 10.0 * EditType(Sub(fs, ts))
  {
  }

  // ---------------------------------------------------------------------------
  // The earlier snapshot (root package) of two features.

  /** `hasSameMeaning` of the root package: exact string equality, without
      normalisation or lower-casing. */
  function RootHasSameMeaning(a: seq<string>, b: seq<string>): (r: bool)
    ensures r <==> |a| == |b| && exists i, j :: 0 <= i < |a| && 0 <= j < |b| && a[i] == b[j]
  {
    if |a| != |b| then false else RootAnyPair(a, b)
  }

  function RootAnyPair(a: seq<string>, b: seq<string>): (r: bool)
    ensures r <==> exists i, j :: 0 <= i < |a| && 0 <= j < |b| && a[i] == b[j]
  {
    if |a| == 0 then false
    else if a[0] in b then true
    else
      var r := RootAnyPair(a[1..], b);
      assert r ==> exists i, j :: 0 <= i < |a| && 0 <= j < |b| && a[i] == b[j] by {
        if r {
          var i, j :| 0 <= i < |a[1..]| && 0 <= j < |b| && a[1..][i] == b[j];
          assert a[i + 1] == a[1..][i];
        }
      }
      assert (exists i, j :: 0 <= i < |a| && 0 <= j < |b| && a[i] == b[j]) ==> r by {
        if exists i, j :: 0 <= i < |a| && 0 <= j < |b| && a[i] == b[j] {
          var i, j :| 0 <= i < |a| && 0 <= j < |b| && a[i] == b[j];
          assert i > 0;
          assert a[1..][i - 1] == a[i];
        }
      }
      r
  }

  /** The normalising comparison accepts everything the exact one accepts. */
  lemma RootSameMeaningImpliesSameMeaning(env: Env, a: seq<string>, b: seq<string>)
    requires RootHasSameMeaning(a, b)
    ensures HasSameMeaning(env, a, b)
  {
    var i, j :| 0 <= i < |a| && 0 <= j < |b| && a[i] == b[j];
    assert Canon(env, a[i]) == Canon(env, b[j]);
  }

  /** c is the last index of ts whose raw edit distance to target is least. */
  ghost predicate IsLastNearest(env: Env, target: string, ts: seq<string>, c: int)
  {
    && 0 <= c < |ts|
    && (forall j :: 0 <= j < |ts| ==> env.lev(target, ts[c]) <= env.lev(target, ts[j]))
    && (forall j :: c < j < |ts| ==> env.lev(target, ts[c]) < env.lev(target, ts[j]))
  }

  /** The root package's scan: the index of the last entry at minimal raw edit
      distance (a later entry replaces the chosen one on a tie). */
  function RootChoose(env: Env, target: string, ts: seq<string>, k: nat, i: nat): (c: nat)
    requires k < |ts| && k < i <= |ts|
    requires forall j :: 0 <= j < i ==> env.lev(target, ts[k]) <= env.lev(target, ts[j])
    requires forall j :: k < j < i ==> env.lev(target, ts[k]) < env.lev(target, ts[j])
    ensures c < |ts|
    ensures forall j :: 0 <= j < |ts| ==> env.lev(target, ts[c]) <= env.lev(target, ts[j])
    ensures forall j :: c < j < |ts| ==> env.lev(target, ts[c]) < env.lev(target, ts[j])
    decreases |ts| - i
  {
    if i == |ts| then k
    else if env.lev(target, ts[i]) <= env.lev(target, ts[k]) then RootChoose(env, target, ts, i, i + 1)
    else RootChoose(env, target, ts, k, i + 1)
  }

  /** `ScholieDistance` of the root package: the commentary entries are looked
      up under the exact summed source text; no entry gives 0; otherwise the
      last entry at minimal raw (not length-relative) edit distance to the raw
      target text is chosen, an empty chosen entry gives 0, and the result is
      one minus that raw distance. */
  function RootScholieDistance(env: Env, sch: map<string, seq<string>>, e: Edit): (r: real)
    ensures Lookup(sch, SumWords(GetWords(e).0).text) == [] ==> r == 0.0
    ensures r <= 1.0
    ensures r != 0.0 ==> exists t :: (t in Lookup(sch, SumWords(GetWords(e).0).text) && t != "" &&
      r == 1.0 - env.lev(SumWords(GetWords(e).1).text, t) as real &&
      forall u :: u in Lookup(sch, SumWords(GetWords(e).0).text) ==>
        env.lev(SumWords(GetWords(e).1).text, t) <= env.lev(SumWords(GetWords(e).1).text, u))
    ensures var ts := Lookup(sch, SumWords(GetWords(e).0).text);
      var target := SumWords(GetWords(e).1).text;
      |ts| > 0 ==> exists c :: (0 <= c < |ts| && IsLastNearest(env, target, ts, c) &&
        r == (if ts[c] == "" then 0.0 else 1.0 - env.lev(target, ts[c]) as real))
    ensures var ts := Lookup(sch, SumWords(GetWords(e).0).text);
      var target := SumWords(GetWords(e).1).text;
      |ts| > 0 && "" !in ts ==> exists t :: (t in ts && r == 1.0 - env.lev(target, t) as real &&
        forall u :: u in ts ==> env.lev(target, t) <= env.lev(target, u))
  {
    var ts := Lookup(sch, SumWords(GetWords(e).0).text);
    var target := SumWords(GetWords(e).1).text;
    if |ts| == 0 then 0.0
    else
      var c := RootChoose(env, target, ts, 0, 1);
      if ts[c] == "" then 0.0 else 1.0 - env.lev(target, ts[c]) as real
  }

  /** The field features of the root package (`LexicalSimilarity`,
      `LemmaDistance`, `TagDistance`): one minus the raw rune edit distance of
      the summed fields. Nothing divides by a length, so the value is never
      NaN and has no lower bound. */
  function RootOnField(env: Env, e: Edit, f: Field): (r: real)
    ensures r <= 1.0
    ensures LevAxioms(env.lev) && FieldOf(SumWords(GetWords(e).0), f) == FieldOf(SumWords(GetWords(e).1), f) ==> r == 1.0
  {
    var s := FieldOf(SumWords(GetWords(e).0), f);
    var t := FieldOf(SumWords(GetWords(e).1), f);
    FieldDistanceSame(env, s);
    1.0 - env.lev(s, t) as real
  }

  /** Where the package's length-relative feature is defined, it is the root
      feature's dissimilarity divided by the longer byte length: the root
      feature counts edit operations, the package feature a fraction of them.
      Where both fields are empty, the package feature is NaN and the root
      one is 1. */
  lemma RootOnFieldScaled(env: Env, e: Edit, f: Field)
    ensures var s := FieldOf(SumWords(GetWords(e).0), f);
      var t := FieldOf(SumWords(GetWords(e).1), f);
      DistanceOnField(env, e, f).Some? ==>
        DistanceOnField(env, e, f).value == 1.0 - (1.0 - RootOnField(env, e, f)) / (MaxNat(ByteLen(s), ByteLen(t)) as real)
    ensures LevAxioms(env.lev) && DistanceOnField(env, e, f).None? ==> RootOnField(env, e, f) == 1.0
  {
    var s := FieldOf(SumWords(GetWords(e).0), f);
    var t := FieldOf(SumWords(GetWords(e).1), f);
    var d := env.lev(s, t) as real;
    assert DistanceOnField(env, e, f) == FieldDistance(env, s, t);
    assert 1.0 - RootOnField(env, e, f) == d;
  }

  /** Against an empty field the root feature is one minus the rune count:
      it is 0 for a one-letter word and negative for longer ones, whatever
      their script. */
  lemma RootOnFieldInserted(env: Env, w: Word, f: Field)
    requires LevAxioms(env.lev)
    ensures RootOnField(env, Ins(w), f) == 1.0 - |FieldOf(w, f)| as real
    ensures RootOnField(env, Del(w), f) == 1.0 - |FieldOf(w, f)| as real
  {
    SumWordsSingleton(w);
    assert FieldOf(ZeroWord, f) == "";
  }

  /** `VocDistance` of the root package: the package's shape, with the root
      `hasSameMeaning`. */
  function RootVocDistance(env: Env, e: Edit): (r: real)
    ensures r == 0.0 || r == 1.0
    ensures r == 1.0 ==> e.Eq? || (e.Sub? && |e.froms| == 1 && |e.tos| == 1)
  {
    match e
    case Eq(f, t) =>
      if RootHasSameMeaning(Lookup(env.voc, f.lemmaForm), Lookup(env.voc, t.lemmaForm)) then 1.0 else 0.0
    case Sub(fs, ts) =>
      if |fs| == 1 && |ts| == 1 && RootHasSameMeaning(Lookup(env.voc, fs[0].lemmaForm), Lookup(env.voc, ts[0].lemmaForm))
      then 1.0 else 0.0
    case _ => 0.0
  }

  /** Every edit the root vocabulary feature accepts, the package's accepts. */
  lemma RootVocImpliesVoc(env: Env, e: Edit)
    ensures RootVocDistance(env, e) <= VocDistance(env, e)
  {
    match e
    case Eq(f, t) =>
      if RootHasSameMeaning(Lookup(env.voc, f.lemmaForm), Lookup(env.voc, t.lemmaForm)) {
        RootSameMeaningImpliesSameMeaning(env, Lookup(env.voc, f.lemmaForm), Lookup(env.voc, t.lemmaForm));
      }
    case Sub(fs, ts) =>
      if |fs| == 1 && |ts| == 1 && RootHasSameMeaning(Lookup(env.voc, fs[0].lemmaForm), Lookup(env.voc, ts[0].lemmaForm)) {
        RootSameMeaningImpliesSameMeaning(env, Lookup(env.voc, fs[0].lemmaForm), Lookup(env.voc, ts[0].lemmaForm));
      }
    case _ =>
  }

  function RootFeatureValues(env: Env, sch: map<string, seq<string>>, e: Edit): seq<Option<real>>
  {
    [Some(RootOnField(env, e, TextField)), Some(RootOnField(env, e, LemmaField)), Some(RootOnField(env, e, TagField)),
     Some(RootVocDistance(env, e)), Some(RootScholieDistance(env, sch, e))]
  }

  /** `MaxDistance` of the root package: the largest of its five features;
      there is no equivalent-term feature. */
  function RootMaxDistance(env: Env, sch: map<string, seq<string>>, e: Edit): (r: real)
    ensures IsDefinedMax(RootFeatureValues(env, sch, e), r)
    ensures r >= RootOnField(env, e, TextField) && r >= RootOnField(env, e, LemmaField) && r >= RootOnField(env, e, TagField)
    ensures r >= RootVocDistance(env, e) && r >= RootScholieDistance(env, sch, e)
  {
    var vs := RootFeatureValues(env, sch, e);
    assert vs[0] == Some(RootOnField(env, e, TextField)) && vs[1] == Some(RootOnField(env, e, LemmaField));
    assert vs[2] == Some(RootOnField(env, e, TagField)) && vs[3] == Some(RootVocDistance(env, e));
    assert vs[4] == Some(RootScholieDistance(env, sch, e));
    MultiMax(vs).value
  }

  /** A commentary entry equal to the non-empty target text makes the root
      feature 1: the nearest entry is then at distance 0, so it cannot be
      the empty entry. */
  lemma RootScholieExactMatch(env: Env, sch: map<string, seq<string>>, e: Edit)
    requires LevAxioms(env.lev)
    requires SumWords(GetWords(e).1).text != ""
    requires SumWords(GetWords(e).1).text in Lookup(sch, SumWords(GetWords(e).0).text)
    ensures RootScholieDistance(env, sch, e) == 1.0
  {
    var ts := Lookup(sch, SumWords(GetWords(e).0).text);
    var target := SumWords(GetWords(e).1).text;
    var r := RootScholieDistance(env, sch, e);
    assert |ts| > 0;
    var c :| 0 <= c < |ts| && IsLastNearest(env, target, ts, c) &&
      r == (if ts[c] == "" then 0.0 else 1.0 - env.lev(target, ts[c]) as real);
    NearestIsExact(env, target, ts, c);
  }

  /** When the target is itself a non-empty entry, the last nearest entry is
      at distance 0 and is not empty. */
  lemma NearestIsExact(env: Env, target: string, ts: seq<string>, c: int)
    requires LevAxioms(env.lev) && target != "" && target in ts
    requires IsLastNearest(env, target, ts, c)
    ensures ts[c] != "" && env.lev(target, ts[c]) == 0
  {
    var k :| 0 <= k < |ts| && ts[k] == target;
    assert env.lev(target, target) == 0;
    assert env.lev(target, ts[c]) <= env.lev(target, ts[k]);
    assert env.lev(target, "") == |target|;
  }
}
