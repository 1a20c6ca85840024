/** The four kinds of edit between the source words and the target words. */
module Edits {
  import opened Base
  import opened Words

  /** `Ins` keeps a target-only word, `Del` a source-only word, `Eq` maps one
      source word onto an equivalent target word, and `Sub` maps a group of
      source words onto a group of target words. */
  datatype Edit =
    | Ins(word: Word)
    | Del(word: Word)
    | Eq(from: Word, to: Word)
    | Sub(froms: seq<Word>, tos: seq<Word>)

  /** The dynamic type of an edit, as `reflect.TypeOf` distinguishes them. */
  datatype Kind = InsKind | DelKind | EqKind | SubKind

  function KindOf(e: Edit): Kind
  {
    match e
    case Ins(_) => InsKind
    case Del(_) => DelKind
    case Eq(_, _) => EqKind
    case Sub(_, _) => SubKind
  }

  /** `getWords`: the source-side and target-side word groups of an edit. */
  function GetWords(e: Edit): (seq<Word>, seq<Word>)
  {
    match e
    case Ins(w) => ([], [w])
    case Del(w) => ([w], [])
    case Eq(f, t) => ([f], [t])
    case Sub(fs, ts) => (fs, ts)
  }

  /** All words an edit uses, source side first. */
  function WordsOf(e: Edit): seq<Word>
  {
    GetWords(e).0 + GetWords(e).1
  }

  /** How many times the edit uses the word w. */
  function Occ(e: Edit, w: Word): nat
  {
    multiset(WordsOf(e))[w]
  }

  /** The test `removeEditWithWordsByID` applies to each edit: a word is
      matched both by ID and by value. For a Sub the source scans the source
      and target words for an x with the same ID that equals w; such an x is
      w itself, so the scan is membership of w. */
  predicate MatchesWord(e: Edit, w: Word)
  {
    match e
    case Ins(x) => x.id == w.id && x == w
    case Del(x) => x.id == w.id && x == w
    case Eq(f, t) => (f == w || t == w) && (f.id == w.id || t.id == w.id)
    case Sub(fs, ts) => w in fs + ts
  }

  /** The ID comparison in that test is redundant: an edit matches a word
      exactly when it uses that very word value. */
  lemma MatchesWordIffUses(e: Edit, w: Word)
    ensures MatchesWord(e, w) <==> Occ(e, w) > 0
  {
    assert Occ(e, w) > 0 <==> w in WordsOf(e);
  }

  /** `GetProblemID` of an edit: the locator of its first (source) word. A
      `Sub` without source words has none: the source either stops with a
      fatal log line (both sides empty) or panics on the index. */
  function EditProblemId(e: Edit): (r: Option<string>)
    ensures r.None? <==> e.Sub? && |e.froms| == 0
    ensures r.Some? ==> |WordsOf(e)| > 0 && r.value == ProblemIdOf(WordsOf(e)[0])
  {
    match e
    case Ins(w) => Some(ProblemIdOf(w))
    case Del(w) => Some(ProblemIdOf(w))
    case Eq(f, _) => Some(ProblemIdOf(f))
    case Sub(fs, _) => if |fs| == 0 then None else Some(ProblemIdOf(fs[0]))
  }
}
