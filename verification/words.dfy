/** Words of the two corpora (the poem and its paraphrase), their identifiers,
    the "summed word" used to compare word groups, and the ordering by ID. */
module Words {

  /** A word as loaded from the word database. All fields are strings;
      `lemmaForm` is the Lemma column (`lemma` is a Dafny keyword). */
  datatype Word = Word(id: string, text: string, lemmaForm: string, tag: string,
                       verse: string, chant: string, source: string)

  /** Go's zero value `Word{}`. */
  const ZeroWord: Word := Word("", "", "", "", "", "", "")

  /** Number of bytes of the UTF-8 encoding of one code point. */
  function Utf8Len(c: char): nat
  {
    if c as int < 0x80 then 1
    else if c as int < 0x800 then 2
    else if c as int < 0x10000 then 3
    else 4
  }

  /** Go's `len(s)` on a string: the length in bytes of its UTF-8 encoding,
      which is at least its number of code points (runes). */
  function ByteLen(s: string): (n: nat)
    ensures |s| <= n <= 4 * |s|
    ensures n == 0 <==> |s| == 0
  {
    if |s| == 0 then 0 else Utf8Len(s[0]) + ByteLen(s[1..])
  }

  predicate IsAscii(s: string)
  {
    forall i :: 0 <= i < |s| ==> s[i] as int < 0x80
  }

  /** The byte length equals the rune count exactly for ASCII strings; any
      Greek letter makes the byte length strictly larger. */
  lemma {:induction false} ByteLenIsRuneCountIffAscii(s: string)
    ensures ByteLen(s) == |s| <==> IsAscii(s)
  {
    if |s| > 0 {
      ByteLenIsRuneCountIffAscii(s[1..]);
      assert IsAscii(s) <==> s[0] as int < 0x80 && IsAscii(s[1..]) by {
        if IsAscii(s) {
          forall i | 0 <= i < |s[1..]| ensures s[1..][i] as int < 0x80 {
            assert s[1..][i] == s[i + 1];
          }
        }
        if s[0] as int < 0x80 && IsAscii(s[1..]) {
          forall i | 0 <= i < |s| ensures s[i] as int < 0x80 {
            if i > 0 { assert s[i] == s[1..][i - 1]; }
          }
        }
      }
    }
  }

  /** `GetWordID`: the identifier "<source>.<id>" of a word. */
  function GetWordID(source: string, id: string): (r: string)
    ensures |r| == |source| + 1 + |id|
    ensures r[..|source|] == source && r[|source|] == '.' && r[|source| + 1..] == id
  {
    source + "." + id
  }

  /** With a dot-free source tag, the identifier determines both the source
      tag and the raw id, so distinct words of the database get distinct IDs. */
  lemma GetWordIDInjective(s1: string, i1: string, s2: string, i2: string)
    requires '.' !in s1 && '.' !in s2
    requires GetWordID(s1, i1) == GetWordID(s2, i2)
    ensures s1 == s2 && i1 == i2
  {
    var r := GetWordID(s1, i1);
    if |s1| < |s2| {
      assert false;
    } else if |s2| < |s1| {
      assert false;
    }
  }

  /** `getProblemID`: the "<chant>.<verse>" locator of a word. */
  function ProblemIdOf(w: Word): (r: string)
    ensures |r| == |w.chant| + 1 + |w.verse| && r[|w.chant|] == '.'
  {
    w.chant + "." + w.verse
  }

  function Concat(ss: seq<string>): string
  {
    if |ss| == 0 then "" else ss[0] + Concat(ss[1..])
  }

  function Texts(ws: seq<Word>): seq<string>
  {
    seq(|ws|, i requires 0 <= i < |ws| => ws[i].text)
  }

  function Lemmas(ws: seq<Word>): seq<string>
  {
    seq(|ws|, i requires 0 <= i < |ws| => ws[i].lemmaForm)
  }

  function Tags(ws: seq<Word>): seq<string>
  {
    seq(|ws|, i requires 0 <= i < |ws| => ws[i].tag)
  }

  /** `sumWords`: the single word standing for a group of words. Text, lemma
      and tag are concatenated; ID, chant, verse and source come from the
      first word; the empty group gives the zero word. */
  function SumWords(ws: seq<Word>): Word
  {
    if |ws| == 0 then ZeroWord
    else Word(ws[0].id, Concat(Texts(ws)), Concat(Lemmas(ws)), Concat(Tags(ws)),
              ws[0].verse, ws[0].chant, ws[0].source)
  }

  /** A group of one word sums to that very word. */
  lemma SumWordsSingleton(w: Word)
    ensures SumWords([w]) == w
  {
    assert Concat(Texts([w])) == w.text + Concat([]);
    assert Concat(Lemmas([w])) == w.lemmaForm + Concat([]);
    assert Concat(Tags([w])) == w.tag + Concat([]);
  }

  lemma {:induction false} ConcatAppend(a: seq<string>, b: seq<string>)
    ensures Concat(a + b) == Concat(a) + Concat(b)
  {
    if |a| == 0 {
      assert a + b == b;
    } else {
      assert (a + b)[1..] == a[1..] + b;
      ConcatAppend(a[1..], b);
    }
  }

  /** Summing is a homomorphism on the concatenated fields: the summed text of
      two adjacent groups is the summed text of the first followed by that of
      the second (likewise lemma and tag), and the identity fields come from
      the first non-empty group. */
  lemma SumWordsAppend(a: seq<Word>, b: seq<Word>)
    ensures SumWords(a + b).text == SumWords(a).text + SumWords(b).text
    ensures SumWords(a + b).lemmaForm == SumWords(a).lemmaForm + SumWords(b).lemmaForm
    ensures SumWords(a + b).tag == SumWords(a).tag + SumWords(b).tag
    ensures |a| > 0 ==> SumWords(a + b).id == SumWords(a).id
  {
    assert Texts(a + b) == Texts(a) + Texts(b);
    assert Lemmas(a + b) == Lemmas(a) + Lemmas(b);
    assert Tags(a + b) == Tags(a) + Tags(b);
    ConcatAppend(Texts(a), Texts(b));
    ConcatAppend(Lemmas(a), Lemmas(b));
    ConcatAppend(Tags(a), Tags(b));
    if |a| == 0 {
      assert a + b == b;
    }
    if |b| == 0 {
      assert a + b == a;
    }
  }

  /** Go's `<` on strings. UTF-8 preserves code-point order byte-wise, so the
      byte comparison is the lexicographic order on runes. */
  predicate StrLess(a: string, b: string)
  {
    if |a| == 0 then |b| > 0
    else if |b| == 0 then false
    else a[0] < b[0] || (a[0] == b[0] && StrLess(a[1..], b[1..]))
  }

  lemma StrLessIrreflexive(a: string)
    ensures !StrLess(a, a)
  {
  }

  lemma {:induction false} StrLessTransitive(a: string, b: string, c: string)
    requires StrLess(a, b) && StrLess(b, c)
    ensures StrLess(a, c)
  {
    if |a| > 0 && |b| > 0 && |c| > 0 && a[0] == b[0] && b[0] == c[0] {
      StrLessTransitive(a[1..], b[1..], c[1..]);
    }
  }

  predicate SortedByID(s: seq<Word>)
  {
    forall i, j :: 0 <= i < j < |s| ==> !StrLess(s[j].id, s[i].id)
  }

  /** Putting a word no greater than every element in front keeps the order. */
  lemma PrependSorted(y: Word, r: seq<Word>)
    requires SortedByID(r)
    requires forall j :: 0 <= j < |r| ==> !StrLess(r[j].id, y.id)
    ensures SortedByID([y] + r)
  {
    var t := [y] + r;
    forall i, j | 0 <= i < j < |t| ensures !StrLess(t[j].id, t[i].id) {
      assert t[j] == r[j - 1];
      if i > 0 {
        assert t[i] == r[i - 1];
      }
    }
  }

  /** A word smaller than the head of a sorted sequence is smaller than all. */
  lemma BelowHead(x: Word, s: seq<Word>)
    requires SortedByID(s) && |s| > 0 && StrLess(x.id, s[0].id)
    ensures forall j :: 0 <= j < |s| ==> !StrLess(s[j].id, x.id)
  {
    forall j | 0 <= j < |s| ensures !StrLess(s[j].id, x.id) {
      if StrLess(s[j].id, x.id) {
        StrLessTransitive(s[j].id, x.id, s[0].id);
        if j == 0 { StrLessIrreflexive(s[0].id); }
      }
    }
  }

  /** The head of a sorted sequence is no greater than the words of any
      sequence made of x, no smaller than it, and the rest. */
  lemma HeadBelowRest(x: Word, s: seq<Word>, rest: seq<Word>)
    requires SortedByID(s) && |s| > 0 && !StrLess(x.id, s[0].id)
    requires multiset(rest) == multiset(s[1..]) + multiset{x}
    ensures forall j :: 0 <= j < |rest| ==> !StrLess(rest[j].id, s[0].id)
  {
    forall j | 0 <= j < |rest| ensures !StrLess(rest[j].id, s[0].id) {
      var y := rest[j];
      assert y in multiset(rest);
      if y != x {
        assert y in multiset(s[1..]);
        var k :| 0 <= k < |s[1..]| && s[1..][k] == y;
        assert s[k + 1] == y;
      }
    }
  }

  /** Inserts x after every element whose ID is not greater. */
  function InsertByID(x: Word, s: seq<Word>): (r: seq<Word>)
    requires SortedByID(s)
    ensures multiset(r) == multiset(s) + multiset{x}
    ensures SortedByID(r)
  {
    if |s| == 0 then [x]
    else if StrLess(x.id, s[0].id) then
      BelowHead(x, s);
      PrependSorted(x, s);
      [x] + s
    else
      var rest := InsertByID(x, s[1..]);
      assert s == [s[0]] + s[1..];
      HeadBelowRest(x, s, rest);
      PrependSorted(s[0], rest);
      [s[0]] + rest
  }

  /** The Del and Ins words are sorted by ID before subsequences are drawn;
      the result is a permutation of the input ordered by ID. */
  function SortByID(s: seq<Word>): (r: seq<Word>)
    ensures multiset(r) == multiset(s)
    ensures SortedByID(r)
  {
    if |s| == 0 then []
    else
      assert s == s[..|s| - 1] + [s[|s| - 1]];
      InsertByID(s[|s| - 1], SortByID(s[..|s| - 1]))
  }
}
