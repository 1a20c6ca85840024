/** The gold-standard glue of the command-line program: turning a translation
    unit's source and target word lists into an edit, and grouping the word
    database into one problem per chant and verse. */
module Gold {
  import opened Base
  import opened Words
  import opened Edits
  import opened Alignments

  /** `goldStandard`: an example with its expected alignment. */
  datatype GoldStandard = GoldStandard(id: string, problem: Problem, gold: Alignment)

  // ---------------------------------------------------------------------------
  // Edits from translation units

  /** `canGetEdit`: whether a translation unit's word lists form an edit. The
      one-to-one case with equal text is subsumed by "both sides non-empty",
      so only the empty pair and a lone side of two or more words fail. */
  function CanGetEdit(from: seq<Word>, to: seq<Word>): (r: bool)
    ensures r <==> (|from| > 0 && |to| > 0) || (|from| == 0 && |to| == 1) || (|from| == 1 && |to| == 0)
    ensures !r <==> (|from| == 0 && |to| != 1) || (|to| == 0 && |from| != 1)
  {
    var isIns := |from| == 0 && |to| == 1;
    var isDel := |from| == 1 && |to| == 0;
    var isEq := |from| == 1 && |to| == 1 && from[0].text == to[0].text;
    var notEmpty := |from| > 0 && |to| > 0;
    isIns || isDel || isEq || notEmpty
  }

  /** `getEditFromTu`: the edit a translation unit stands for. Whatever the
      shape, `getWords` gives back the two lists it was built from. */
  function GetEditFromTu(from: seq<Word>, to: seq<Word>): (r: Edit)
    ensures GetWords(r) == (from, to)
  {
    if |from| == 1 && |to| == 0 then assert from == [from[0]]; Del(from[0])
    else if |from| == 0 && |to| == 1 then assert to == [to[0]]; Ins(to[0])
    else if |from| == 1 && |to| == 1 && from[0].text == to[0].text then
      assert from == [from[0]] && to == [to[0]];
      Eq(from[0], to[0])
    else Sub(from, to)
  }

  /** The kind of edit is decided by the shape of the two lists and, for one
      word on each side, by whether their texts agree. */
  lemma GetEditFromTuKind(from: seq<Word>, to: seq<Word>)
    ensures KindOf(GetEditFromTu(from, to)) == DelKind <==> |from| == 1 && |to| == 0
    ensures KindOf(GetEditFromTu(from, to)) == InsKind <==> |from| == 0 && |to| == 1
    ensures KindOf(GetEditFromTu(from, to)) == EqKind <==>
      |from| == 1 && |to| == 1 && from[0].text == to[0].text
    ensures KindOf(GetEditFromTu(from, to)) == SubKind <==>
      !(|from| == 1 && |to| == 0) && !(|from| == 0 && |to| == 1) &&
      !(|from| == 1 && |to| == 1 && from[0].text == to[0].text)
  {
  }

  /** The edits `getEditFromTu` can produce: an `Eq` joins words with the
      same text, and a `Sub` has a shape no other kind covers. */
  predicate Canonical(e: Edit)
  {
    match e
    case Ins(_) => true
    case Del(_) => true
    case Eq(f, t) => f.text == t.text
    case Sub(fs, ts) =>
      !(|fs| == 1 && |ts| == 0) && !(|fs| == 0 && |ts| == 1) &&
      !(|fs| == 1 && |ts| == 1 && fs[0].text == ts[0].text)
  }

  /** The other direction of the round trip: a canonical edit is rebuilt
      from its word lists, and only canonical edits are. */
  lemma GetEditFromWords(e: Edit)
    ensures GetEditFromTu(GetWords(e).0, GetWords(e).1) == e <==> Canonical(e)
  {
  }

  /** Every edit built from a translation unit is canonical. */
  lemma GetEditFromTuCanonical(from: seq<Word>, to: seq<Word>)
    ensures Canonical(GetEditFromTu(from, to))
  {
    GetEditFromWords(GetEditFromTu(from, to));
  }

  // ---------------------------------------------------------------------------
  // getProblems

  /** The gold standard a problem starts from: no words and no edits. */
  function NewGold(pid: string): GoldStandard
  {
    GoldStandard(pid, Problem(map[], map[]), [])
  }

  /** One iteration of the grouping loop: open the word's problem if it is
      new, which fails when the word has no source tag, then file a `HOM` word
      among the problem's source words and a `PARA` word among its target
      words, keyed by word ID. */
  function AddWord(data: map<string, GoldStandard>, w: Word): (r: Result<map<string, GoldStandard>>)
    ensures r.Err? <==> ProblemIdOf(w) !in data && w.source == ""
    ensures r.Err? ==> r.reason == "AA"
  {
    var pid := ProblemIdOf(w);
    if pid !in data && (pid == "" || w.source == "") then Err("AA")
    else Ok(data[pid := FileWord(if pid in data then data[pid] else NewGold(pid), w)])
  }

  /** Files w among the source words of g if it is a `HOM` word and among
      its target words if it is a `PARA` word. */
  function FileWord(g: GoldStandard, w: Word): (r: GoldStandard)
    ensures r.id == g.id && r.gold == g.gold
    ensures r.problem.from == if w.source == "HOM" then g.problem.from[w.id := w] else g.problem.from
    ensures r.problem.to == if w.source == "PARA" then g.problem.to[w.id := w] else g.problem.to
  {
    var g1 := if w.source == "HOM" then g.(problem := g.problem.(from := g.problem.from[w.id := w])) else g;
    if w.source == "PARA" then g1.(problem := g1.problem.(to := g1.problem.to[w.id := w])) else g1
  }

  /** `getProblems`, with the database given as its words in the order the
      loop visits them. */
  function GetProblems(ws: seq<Word>): (r: Result<map<string, GoldStandard>>)
    ensures r.Err? ==> r.reason == "AA"
  {
    if |ws| == 0 then Ok(map[])
    else
      var prev := GetProblems(ws[..|ws| - 1]);
      if prev.Err? then prev else AddWord(prev.value, ws[|ws| - 1])
  }

  /** Word w belongs to problem p, comes from source tag src and has ID x. */
  predicate Filed(w: Word, p: string, src: string, x: string)
  {
    ProblemIdOf(w) == p && w.source == src && w.id == x
  }

  /** The IDs of the words of ws filed under problem p and source tag src. */
  ghost function FiledIds(ws: seq<Word>, p: string, src: string): set<string>
  {
    set w | w in ws && ProblemIdOf(w) == p && w.source == src :: w.id
  }

  /** The problem IDs of the words of ws. */
  ghost function ProblemIds(ws: seq<Word>): set<string>
  {
    set w | w in ws :: ProblemIdOf(w)
  }

  /** The words of side src of problem p, keyed by word ID, are exactly the
      words of ws filed there, and each key holds such a word. */
  ghost predicate SideOf(ws: seq<Word>, p: string, src: string, side: map<string, Word>)
  {
    side.Keys == FiledIds(ws, p, src) &&
    (forall x | x in side :: side[x] in ws && Filed(side[x], p, src, x))
  }

  /** What the grouping promises: one problem per chant and verse that some
      word has, named after it, with an empty gold alignment, its `HOM` words
      as source words and its `PARA` words as target words. */
  ghost predicate Grouped(ws: seq<Word>, data: map<string, GoldStandard>)
  {
    data.Keys == ProblemIds(ws) &&
    (forall p | p in data ::
      data[p].id == p && data[p].gold == [] &&
      SideOf(ws, p, "HOM", data[p].problem.from) &&
      SideOf(ws, p, "PARA", data[p].problem.to))
  }

  /** Word i is the first of ws with its problem ID: the one that opens it. */
  predicate Opens(ws: seq<Word>, i: int)
  {
    0 <= i < |ws| && forall j :: 0 <= j < i ==> ProblemIdOf(ws[j]) != ProblemIdOf(ws[i])
  }

  lemma FiledIdsAppend(b: seq<Word>, w: Word, p: string, src: string)
    ensures FiledIds(b + [w], p, src)
      == FiledIds(b, p, src) + (if ProblemIdOf(w) == p && w.source == src then {w.id} else {})
  {
    var ws := b + [w];
    forall x | x in FiledIds(ws, p, src)
      ensures x in FiledIds(b, p, src) || (ProblemIdOf(w) == p && w.source == src && x == w.id)
    {
      var u :| u in ws && ProblemIdOf(u) == p && u.source == src && u.id == x;
      if u != w {
        assert u in b;
      }
    }
    forall x | x in FiledIds(b, p, src) ensures x in FiledIds(ws, p, src) {
      var u :| u in b && ProblemIdOf(u) == p && u.source == src && u.id == x;
      assert u in ws;
    }
    if ProblemIdOf(w) == p && w.source == src {
      assert w in ws;
    }
  }

  lemma ProblemIdsAppend(b: seq<Word>, w: Word)
    ensures ProblemIds(b + [w]) == ProblemIds(b) + {ProblemIdOf(w)}
  {
    var ws := b + [w];
    forall x | x in ProblemIds(ws) ensures x in ProblemIds(b) || x == ProblemIdOf(w) {
      var u :| u in ws && ProblemIdOf(u) == x;
      if u != w {
        assert u in b;
      }
    }
    forall x | x in ProblemIds(b) ensures x in ProblemIds(ws) {
      var u :| u in b && ProblemIdOf(u) == x;
      assert u in ws;
    }
    assert w in ws;
  }

  lemma SideOfStep(b: seq<Word>, w: Word, p: string, src: string, side: map<string, Word>)
    requires SideOf(b, p, src, side)
    ensures SideOf(b + [w], p, src, if Filed(w, p, src, w.id) then side[w.id := w] else side)
  {
    FiledIdsAppend(b, w, p, src);
    var ws := b + [w];
    forall x | x in side ensures side[x] in ws {
    }
  }

  /** A problem with filed words is the problem of one of the words. */
  lemma FiledHasProblem(b: seq<Word>, p: string, src: string)
    ensures FiledIds(b, p, src) != {} ==> p in ProblemIds(b)
  {
    if FiledIds(b, p, src) != {} {
      var x :| x in FiledIds(b, p, src);
      var u :| u in b && ProblemIdOf(u) == p && u.source == src && u.id == x;
      assert ProblemIdOf(u) in ProblemIds(b);
    }
  }

  lemma NewSide(b: seq<Word>, w: Word, src: string)
    requires ProblemIdOf(w) !in ProblemIds(b)
    ensures SideOf(b, ProblemIdOf(w), src, map[])
  {
    FiledHasProblem(b, ProblemIdOf(w), src);
  }

  /** The problem a word goes to keeps the grouping promise. */
  lemma FileWordGrouped(b: seq<Word>, g: GoldStandard, w: Word)
    requires g.id == ProblemIdOf(w) && g.gold == []
    requires SideOf(b, g.id, "HOM", g.problem.from) && SideOf(b, g.id, "PARA", g.problem.to)
    ensures var r := FileWord(g, w);
      r.id == g.id && r.gold == [] &&
      SideOf(b + [w], g.id, "HOM", r.problem.from) && SideOf(b + [w], g.id, "PARA", r.problem.to)
  {
    SideOfStep(b, w, g.id, "HOM", g.problem.from);
    SideOfStep(b, w, g.id, "PARA", g.problem.to);
  }

  /** The other problems keep the grouping promise too. */
  lemma OtherGrouped(b: seq<Word>, g: GoldStandard, w: Word)
    requires g.id != ProblemIdOf(w)
    requires SideOf(b, g.id, "HOM", g.problem.from) && SideOf(b, g.id, "PARA", g.problem.to)
    ensures SideOf(b + [w], g.id, "HOM", g.problem.from) && SideOf(b + [w], g.id, "PARA", g.problem.to)
  {
    SideOfStep(b, w, g.id, "HOM", g.problem.from);
    SideOfStep(b, w, g.id, "PARA", g.problem.to);
  }

  /** One step keeps the grouping promise. */
  lemma AddWordGrouped(b: seq<Word>, data: map<string, GoldStandard>, w: Word)
    requires Grouped(b, data) && AddWord(data, w).Ok?
    ensures Grouped(b + [w], AddWord(data, w).value)
  {
    var pid := ProblemIdOf(w);
    var g := if pid in data then data[pid] else NewGold(pid);
    ProblemIdsAppend(b, w);
    if pid !in data {
      NewSide(b, w, "HOM");
      NewSide(b, w, "PARA");
    }
    FileWordGrouped(b, g, w);
    forall p | p in data && p != pid
      ensures SideOf(b + [w], p, "HOM", data[p].problem.from) && SideOf(b + [w], p, "PARA", data[p].problem.to)
    {
      OtherGrouped(b, data[p], w);
    }
  }

  /** Whatever order the database is visited in, a successful grouping keeps
      the grouping promise. */
  lemma {:induction false} GetProblemsGrouped(ws: seq<Word>)
    ensures GetProblems(ws).Ok? ==> Grouped(ws, GetProblems(ws).value)
  {
    if |ws| > 0 {
      var b := ws[..|ws| - 1];
      assert ws == b + [ws[|ws| - 1]];
      GetProblemsGrouped(b);
      if GetProblems(ws).Ok? {
        AddWordGrouped(b, GetProblems(b).value, ws[|ws| - 1]);
      }
    }
  }

  /** Some word of ws opens a problem without having a source tag. */
  predicate HasBadOpener(ws: seq<Word>)
  {
    exists i :: 0 <= i < |ws| && Opens(ws, i) && ws[i].source == ""
  }

  lemma BadOpenerStep(ws: seq<Word>)
    requires |ws| > 0
    ensures HasBadOpener(ws) <==>
      HasBadOpener(ws[..|ws| - 1]) || (Opens(ws, |ws| - 1) && ws[|ws| - 1].source == "")
  {
    var n := |ws| - 1;
    var b := ws[..n];
    OpensPrefix(ws, n);
    if HasBadOpener(b) {
      var i :| 0 <= i < |b| && Opens(b, i) && b[i].source == "";
      assert b[i] == ws[i];
    }
    if HasBadOpener(ws) {
      var i :| 0 <= i < |ws| && Opens(ws, i) && ws[i].source == "";
      if i < n {
        assert b[i] == ws[i];
      }
    }
  }

  /** The grouping fails exactly when some word that opens a problem has no
      source tag. */
  lemma {:induction false} GetProblemsFails(ws: seq<Word>)
    ensures GetProblems(ws).Err? <==> HasBadOpener(ws)
  {
    if |ws| > 0 {
      GetProblemsFails(ws[..|ws| - 1]);
      BadOpenerStep(ws);
      if GetProblems(ws[..|ws| - 1]).Ok? {
        GetProblemsGrouped(ws[..|ws| - 1]);
        LastOpens(ws);
      }
    }
  }

  /** An earlier word opens a problem in ws exactly when it does in the prefix. */
  lemma OpensPrefix(ws: seq<Word>, n: nat)
    requires n <= |ws|
    ensures forall i :: 0 <= i < n ==> (Opens(ws, i) <==> Opens(ws[..n], i))
  {
  }

  /** The last word opens a problem exactly when its problem ID is new. */
  lemma LastOpens(ws: seq<Word>)
    requires |ws| > 0
    ensures Opens(ws, |ws| - 1) <==> ProblemIdOf(ws[|ws| - 1]) !in ProblemIds(ws[..|ws| - 1])
  {
    var n := |ws| - 1;
    var b := ws[..n];
    if ProblemIdOf(ws[n]) in ProblemIds(b) {
      var u :| u in b && ProblemIdOf(u) == ProblemIdOf(ws[n]);
      var j :| 0 <= j < n && b[j] == u;
      assert ProblemIdOf(ws[j]) == ProblemIdOf(ws[n]);
    } else {
      forall j | 0 <= j < n ensures ProblemIdOf(ws[j]) != ProblemIdOf(ws[n]) {
        assert ws[j] == b[j];
        assert ProblemIdOf(b[j]) in ProblemIds(b);
      }
    }
  }
}
