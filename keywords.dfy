/**
 * Sentence normalisation: each input line becomes a keyword string
 * (stripped, punctuation removed, lower-cased, split on single spaces,
 * duplicate words dropped keeping the first), and the keywords of all
 * lines, first-seen unique, become the nodes of the similarity matrix.
 */
module Keywords {
  import opened Text

  predicate NoDups<T(==)>(s: seq<T>) {
    forall i, j :: 0 <= i < j < |s| ==> s[i] != s[j]
  }

  /**
   * The elements of s in order, each kept at its first occurrence: what a
   * LinkedHashSet, or a list guarded by contains before add, ends up holding.
   */
  function Distinct<T(==, !new)>(s: seq<T>): (r: seq<T>)
    ensures NoDups(r)
    ensures forall x :: x in r <==> x in s
  {
    if s == [] then []
    else
      var d := Distinct(s[..|s| - 1]);
      assert s == s[..|s| - 1] + [s[|s| - 1]];
      if s[|s| - 1] in d then d else d + [s[|s| - 1]]
  }

  lemma TakeSnoc<T>(s: seq<T>, k: nat)
    requires k < |s|
    ensures s[..k + 1] == s[..k] + [s[k]]
  {
  }

  lemma DistinctSnoc<T(!new)>(s: seq<T>, x: T)
    ensures Distinct(s + [x]) == if x in Distinct(s) then Distinct(s) else Distinct(s) + [x]
  {
    assert (s + [x])[..|s|] == s;
  }

  /** The position of the first occurrence of x in s. */
  function IndexOf<T(==)>(s: seq<T>, x: T): (k: nat)
    requires x in s
    ensures k < |s| && s[k] == x && x !in s[..k]
  {
    if s[0] == x then 0
    else
      var k := 1 + IndexOf(s[1..], x);
      assert s[..k] == [s[0]] + s[1..][..k - 1];
      k
  }

  lemma FirstOccurrenceUnique<T>(s: seq<T>, x: T, k: nat)
    requires k < |s| && s[k] == x && x !in s[..k]
    ensures IndexOf(s, x) == k
  {
  }

  /** An element of all but the last is first found where it is first found in all but the last. */
  lemma IndexOfInit<T>(s: seq<T>, x: T)
    requires s != [] && x in s[..|s| - 1]
    ensures IndexOf(s, x) == IndexOf(s[..|s| - 1], x)
  {
    var p := s[..|s| - 1];
    var k := IndexOf(p, x);
    assert p[..k] == s[..k];
    FirstOccurrenceUnique(s, x, k);
  }

  /** A last element that occurs nowhere before is first found at the end. */
  lemma IndexOfLast<T>(s: seq<T>)
    requires s != [] && s[|s| - 1] !in s[..|s| - 1]
    ensures IndexOf(s, s[|s| - 1]) == |s| - 1
  {
    FirstOccurrenceUnique(s, s[|s| - 1], |s| - 1);
  }

  /** Distinct keeps the elements in the order of their first occurrence. */
  lemma {:induction false} DistinctInOrder<T(!new)>(s: seq<T>, i: nat, j: nat)
    requires i < j < |Distinct(s)|
    ensures IndexOf(s, Distinct(s)[i]) < IndexOf(s, Distinct(s)[j])
  {
    var p := s[..|s| - 1];
    var d := Distinct(p);
    var r := Distinct(s);
    assert r == d || r == d + [s[|s| - 1]];
    assert forall k :: 0 <= k < |d| ==> r[k] == d[k];
    assert r[i] in p by {
      assert r[i] in d;
    }
    IndexOfInit(s, r[i]);
    if j < |d| {
      DistinctInOrder(p, i, j);
      assert r[j] in d;
      IndexOfInit(s, r[j]);
    } else {
      IndexOfLast(s);
    }
  }

  /** A word as it enters the set: stripped, without spaces, punctuation or upper case. */
  predicate CleanWord(w: string) {
    Stripped(w) && Plain(w) && ' ' !in w
  }

  /** Lower-casing the line after its punctuation is removed leaves it plain. */
  lemma LoweredPlain(s: string)
    ensures Plain(LowerCase(RemovePunct(s)))
  {
    var r := RemovePunct(s);
    var lowered := LowerCase(r);
    forall c | c in lowered
      ensures !IsPunct(c) && !IsUpper(c)
    {
      var k :| 0 <= k < |lowered| && lowered[k] == c;
      assert r[k] in r;
    }
  }

  /** The pieces java's split(" ") makes of a stripped, punctuation-free, lower-cased line. */
  function Pieces(line: string): (ps: seq<string>)
    ensures forall p :: p in ps ==> Plain(p) && ' ' !in p
  {
    var lowered := LowerCase(RemovePunct(Strip(line)));
    LoweredPlain(Strip(line));
    SplitOnSpacePlain(lowered);
    SplitOnSpace(lowered)
  }

  /** Each piece stripped, as it is added to the set of words. */
  function StripEach(ps: seq<string>): (ws: seq<string>)
    requires forall p :: p in ps ==> Plain(p) && ' ' !in p
    ensures |ws| == |ps| && forall k :: 0 <= k < |ps| ==> ws[k] == Strip(ps[k])
    ensures forall w :: w in ws ==> CleanWord(w)
  {
    if ps == [] then []
    else
      assert ps[0] in ps;
      StripPlain(ps[0]);
      StripChars(ps[0]);
      assert forall p :: p in ps[1..] ==> p in ps;
      [Strip(ps[0])] + StripEach(ps[1..])
  }

  /**
   * The words of a line, in order and with repetitions: the line is
   * stripped, its punctuation removed, it is lower-cased and split on
   * single spaces, and each piece is stripped.
   */
  function Words(line: string): (ws: seq<string>)
    ensures forall w :: w in ws ==> CleanWord(w)
  {
    StripEach(Pieces(line))
  }

  /** The keyword text before the final strip: each word followed by one space. */
  function JoinWords(ws: seq<string>): string {
    if ws == [] then [] else ws[0] + " " + JoinWords(ws[1..])
  }

  lemma {:induction false} JoinWordsAppend(ws: seq<string>, w: string)
    ensures JoinWords(ws + [w]) == JoinWords(ws) + w + " "
  {
    if ws != [] {
      assert (ws + [w])[1..] == ws[1..] + [w];
      JoinWordsAppend(ws[1..], w);
    }
  }

  lemma {:induction false} JoinWordsPlain(ws: seq<string>)
    requires forall w :: w in ws ==> Plain(w)
    ensures Plain(JoinWords(ws))
  {
    if ws != [] {
      assert ws[0] in ws;
      assert forall w :: w in ws[1..] ==> w in ws;
      JoinWordsPlain(ws[1..]);
    }
  }

  lemma {:induction false} JoinWordsIntercalate(ws: seq<string>)
    requires ws != []
    ensures JoinWords(ws) == Intercalate(ws) + " "
  {
    if |ws| > 1 {
      JoinWordsIntercalate(ws[1..]);
    }
  }

  /** The keyword of a line: its distinct words, space separated. */
  function Keyword(line: string): (kw: string)
    ensures Stripped(kw) && Plain(kw)
  {
    var d := Distinct(Words(line));
    JoinWordsPlain(d);
    StripPlain(JoinWords(d));
    Strip(JoinWords(d))
  }

  /**
   * The words that survive the final strip of the keyword: an empty word
   * (two spaces in a row, or a space at an edge, in the line) disappears
   * when it comes first or last.
   */
  function DropEdgeEmpty(d: seq<string>): seq<string> {
    var d1 := if d != [] && d[0] == [] then d[1..] else d;
    if d1 != [] && d1[|d1| - 1] == [] then d1[..|d1| - 1] else d1
  }

  lemma {:induction false} IntercalateLastChar(e: seq<string>)
    requires e != [] && e[|e| - 1] != []
    ensures Intercalate(e) != []
    ensures Intercalate(e)[|Intercalate(e)| - 1] == e[|e| - 1][|e[|e| - 1]| - 1]
  {
    if |e| > 1 {
      assert e[1..][|e| - 2] == e[|e| - 1];
      IntercalateLastChar(e[1..]);
    }
  }

  lemma StrippedIntercalate(e: seq<string>)
    requires e != [] && e[0] != [] && e[|e| - 1] != []
    requires forall w :: w in e ==> Stripped(w)
    ensures Stripped(Intercalate(e)) && Intercalate(e) != [] && Intercalate(e)[0] != ' '
  {
    IntercalateLastChar(e);
    assert e[0] in e && e[|e| - 1] in e;
  }

  lemma StripJoinNoEdgeEmpty(e: seq<string>)
    requires e != [] && e[0] != [] && e[|e| - 1] != []
    requires forall w :: w in e ==> Stripped(w)
    ensures Strip(JoinWords(e)) == Intercalate(e)
  {
    StrippedIntercalate(e);
    JoinWordsIntercalate(e);
    StripTrailingSpace(Intercalate(e));
  }

  lemma JoinWordsLeadingEmpty(e: seq<string>, i: string)
    requires e != [] && JoinWords(e) == i + " "
    ensures JoinWords([[]] + e) == " " + i + " "
  {
    assert ([[]] + e)[1..] == e;
  }

  lemma StripJoinLeadingEmpty(e: seq<string>)
    requires e != [] && e[0] != [] && e[|e| - 1] != []
    requires forall w :: w in e ==> Stripped(w)
    ensures Strip(JoinWords([[]] + e)) == Intercalate(e)
  {
    StrippedIntercalate(e);
    JoinWordsIntercalate(e);
    JoinWordsLeadingEmpty(e, Intercalate(e));
    StripBetweenSpaces(Intercalate(e));
  }

  lemma JoinWordsTrailingEmpty(e: seq<string>, i: string)
    requires JoinWords(e) == i + " "
    ensures JoinWords(e + [[]]) == i + " " + " "
  {
    JoinWordsAppend(e, []);
  }

  lemma StripJoinTrailingEmpty(e: seq<string>)
    requires e != [] && e[0] != [] && e[|e| - 1] != []
    requires forall w :: w in e ==> Stripped(w)
    ensures Strip(JoinWords(e + [[]])) == Intercalate(e)
  {
    StrippedIntercalate(e);
    JoinWordsIntercalate(e);
    JoinWordsTrailingEmpty(e, Intercalate(e));
    StripBeforeSpaces(Intercalate(e));
  }

  lemma DropEdgeEmptyLeading(d: seq<string>)
    requires NoDups(d)
    requires |d| >= 2 && d[0] == []
    ensures d[1..][0] != [] && d[1..][|d| - 2] != []
    ensures DropEdgeEmpty(d) == d[1..] && d == [[]] + d[1..]
  {
    assert d[1] != d[0];
    assert d[|d| - 1] != d[0];
  }

  lemma DropEdgeEmptyTrailing(d: seq<string>)
    requires NoDups(d)
    requires |d| >= 2 && d[|d| - 1] == []
    ensures d[..|d| - 1][0] != [] && d[..|d| - 1][|d| - 2] != []
    ensures DropEdgeEmpty(d) == d[..|d| - 1] && d == d[..|d| - 1] + [[]]
  {
    assert d[0] != d[|d| - 1];
    assert d[|d| - 2] != d[|d| - 1];
  }

  lemma StripJoinWordsLeading(d: seq<string>)
    requires NoDups(d) && |d| >= 2 && d[0] == []
    requires forall w :: w in d ==> Stripped(w)
    ensures Strip(JoinWords(d)) == Intercalate(DropEdgeEmpty(d))
  {
    var e := d[1..];
    DropEdgeEmptyLeading(d);
    assert forall w :: w in e ==> w in d;
    StripJoinLeadingEmpty(e);
  }

  lemma StripJoinWordsTrailing(d: seq<string>)
    requires NoDups(d) && |d| >= 2 && d[|d| - 1] == []
    requires forall w :: w in d ==> Stripped(w)
    ensures Strip(JoinWords(d)) == Intercalate(DropEdgeEmpty(d))
  {
    var e := d[..|d| - 1];
    DropEdgeEmptyTrailing(d);
    assert forall w :: w in e ==> w in d;
    StripJoinTrailingEmpty(e);
  }

  /** Stripping the joined words removes exactly an empty first or last word. */
  lemma StripJoinWords(d: seq<string>)
    requires NoDups(d)
    requires forall w :: w in d ==> Stripped(w)
    ensures Strip(JoinWords(d)) == Intercalate(DropEdgeEmpty(d))
  {
    if d == [] {
    } else if d == [[]] {
      StripJoinOneEmpty();
    } else if d[0] == [] {
      StripJoinWordsLeading(d);
    } else if d[|d| - 1] == [] {
      StripJoinWordsTrailing(d);
    } else {
      assert DropEdgeEmpty(d) == d;
      StripJoinNoEdgeEmpty(d);
    }
  }

  /** A line whose only word is empty has the empty keyword. */
  lemma StripJoinOneEmpty()
    ensures Strip(JoinWords([[]])) == []
  {
    assert JoinWords([[]]) == " ";
    assert TrimEnd(" ") == [];
  }

  lemma DropEdgeEmptyShape(d: seq<string>)
    requires NoDups(d)
    ensures NoDups(DropEdgeEmpty(d))
    ensures forall w :: w in DropEdgeEmpty(d) ==> w in d
    ensures DropEdgeEmpty(d) == [] || (DropEdgeEmpty(d)[0] != [] && DropEdgeEmpty(d)[|DropEdgeEmpty(d)| - 1] != [])
  {
    var d1 := if d != [] && d[0] == [] then d[1..] else d;
    assert NoDups(d1);
    assert forall w :: w in d1 ==> w in d;
    var e := DropEdgeEmpty(d);
    assert forall w :: w in e ==> w in d1;
    if |d1| >= 2 && d1[|d1| - 1] == [] {
      assert d1[0] != d1[|d1| - 1];
      assert d1[|d1| - 2] != d1[|d1| - 1];
    }
  }

  lemma SplitOnSpaceIntercalate(e: seq<string>)
    requires e != [] && e[0] != [] && e[|e| - 1] != []
    requires forall w :: w in e ==> Stripped(w) && ' ' !in w
    ensures SplitOnSpace(Intercalate(e)) == e
  {
    StrippedIntercalate(e);
    SplitAllIntercalate(e);
  }

  /**
   * Splitting a keyword again on single spaces, as scoring does, gives back
   * its distinct words in first-occurrence order (bar an empty word at an
   * edge); a keyword with no words splits into the one empty token.
   */
  lemma KeywordTokens(line: string)
    ensures var e := DropEdgeEmpty(Distinct(Words(line)));
            SplitOnSpace(Keyword(line)) == if e == [] then [[]] else e
    ensures NoDups(SplitOnSpace(Keyword(line)))
  {
    JoinedTokens(Distinct(Words(line)));
  }

  /** Splitting the stripped join of distinct clean words gives them back, bar an empty word at an edge. */
  lemma JoinedTokens(d: seq<string>)
    requires NoDups(d) && forall w :: w in d ==> CleanWord(w)
    ensures var e := DropEdgeEmpty(d);
            SplitOnSpace(Strip(JoinWords(d))) == if e == [] then [[]] else e
    ensures NoDups(SplitOnSpace(Strip(JoinWords(d))))
  {
    StripJoinWords(d);
    DropEdgeEmptyShape(d);
    if DropEdgeEmpty(d) != [] {
      EdgelessSplit(d);
    }
  }

  /** The words that survive the strip, when there are any, split back out of their join. */
  lemma EdgelessSplit(d: seq<string>)
    requires NoDups(d) && forall w :: w in d ==> CleanWord(w)
    requires DropEdgeEmpty(d) != []
    ensures SplitOnSpace(Intercalate(DropEdgeEmpty(d))) == DropEdgeEmpty(d)
  {
    DropEdgeEmptyShape(d);
    var e := DropEdgeEmpty(d);
    forall w | w in e
      ensures Stripped(w) && ' ' !in w
    {
      assert w in d;
    }
    SplitOnSpaceIntercalate(e);
  }

  /** Distinct leaves a sequence without duplicates as it is. */
  lemma {:induction false} DistinctOfNoDups<T(!new)>(s: seq<T>)
    requires NoDups(s)
    ensures Distinct(s) == s
  {
    if s != [] {
      var init := s[..|s| - 1];
      assert NoDups(init);
      DistinctOfNoDups(init);
      assert s[|s| - 1] !in init;
      assert s == init + [s[|s| - 1]];
    }
  }

  /** Stripping words that are already stripped changes nothing. */
  lemma StripEachClean(ps: seq<string>)
    requires forall p :: p in ps ==> Stripped(p) && Plain(p) && ' ' !in p
    ensures StripEach(ps) == ps
  {
    assert forall k :: 0 <= k < |ps| ==> ps[k] in ps;
  }

  /** The tokens of a keyword are clean words. */
  lemma KeywordTokensClean(line: string)
    ensures forall w :: w in SplitOnSpace(Keyword(line)) ==> CleanWord(w)
  {
    var d := Distinct(Words(line));
    KeywordTokens(line);
    DropEdgeEmptyShape(d);
  }

  /** The words of a keyword are its tokens: normalising it again removes nothing. */
  lemma WordsOfKeyword(line: string)
    ensures Words(Keyword(line)) == SplitOnSpace(Keyword(line))
  {
    var kw := Keyword(line);
    RemovePunctPlain(kw);
    assert LowerCase(kw) == kw;
    assert Pieces(kw) == SplitOnSpace(kw);
    KeywordTokensClean(line);
    StripEachClean(SplitOnSpace(kw));
  }

  /** Normalising a keyword joins its tokens again. */
  lemma KeywordOfKeyword(line: string)
    ensures Keyword(Keyword(line)) == Strip(JoinWords(SplitOnSpace(Keyword(line))))
  {
    WordsOfKeyword(line);
    KeywordTokens(line);
    DistinctOfNoDups(SplitOnSpace(Keyword(line)));
  }

  /** Joining the words that survive the strip, and stripping, gives the same string as joining all of them. */
  lemma RejoinEdgeless(d: seq<string>)
    requires NoDups(d)
    requires forall w :: w in d ==> Stripped(w)
    ensures var e := DropEdgeEmpty(d);
            Strip(JoinWords(if e == [] then [[]] else e)) == Strip(JoinWords(d))
  {
    var e := DropEdgeEmpty(d);
    StripJoinWords(d);
    if e == [] {
      StripJoinOneEmpty();
    } else {
      DropEdgeEmptyShape(d);
      assert forall w :: w in e ==> Stripped(w) by {
        assert forall w :: w in e ==> w in d;
      }
      assert DropEdgeEmpty(e) == e;
      StripJoinWords(e);
    }
  }

  /** Joining the tokens of a keyword and stripping gives the keyword back. */
  lemma KeywordRejoin(line: string)
    ensures Strip(JoinWords(SplitOnSpace(Keyword(line)))) == Keyword(line)
  {
    KeywordTokens(line);
    RejoinEdgeless(Distinct(Words(line)));
  }

  /** Normalising a keyword gives it back unchanged. */
  lemma KeywordIdempotent(line: string)
    ensures Keyword(Keyword(line)) == Keyword(line)
  {
    KeywordOfKeyword(line);
    KeywordRejoin(line);
  }

  /** Lines that differ only in the case of their letters have the same keyword. */
  lemma KeywordUpToCase(a: string, b: string)
    requires SameUpToCase(a, b)
    ensures Keyword(a) == Keyword(b)
  {
    StripUpToCase(a, b);
    RemovePunctUpToCase(Strip(a), Strip(b));
    LowerCaseUpToCase(RemovePunct(Strip(a)), RemovePunct(Strip(b)));
    assert Pieces(a) == Pieces(b);
  }

  /** Java's normalisation loop for one line: builds the keyword of the line. */
  method Normalize(line: string) returns (keyword: string)
    ensures keyword == Keyword(line)
  {
    var sentence := Strip(line);
    sentence := RemovePunct(sentence);
    sentence := LowerCase(sentence);
    var pieces := SplitOnSpace(sentence);
    assert pieces == Pieces(line);
    ghost var words := Words(line);
    var unique: seq<string> := [];
    for k := 0 to |pieces|
      invariant unique == Distinct(words[..k])
    {
      var word := Strip(pieces[k]);
      TakeSnoc(words, k);
      DistinctSnoc(words[..k], word);
      if word !in unique {
        unique := unique + [word];
      }
    }
    assert words[..|pieces|] == words;
    keyword := [];
    for k := 0 to |unique|
      invariant keyword == JoinWords(unique[..k])
    {
      JoinWordsAppend(unique[..k], unique[k]);
      TakeSnoc(unique, k);
      keyword := keyword + unique[k] + " ";
    }
    assert unique[..|unique|] == unique;
    keyword := Strip(keyword);
  }

  /** The keyword of every line, in line order and with repetitions. */
  function LineKeywords(lines: seq<string>): (ks: seq<string>)
    ensures |ks| == |lines|
    ensures forall k :: 0 <= k < |lines| ==> ks[k] == Keyword(lines[k])
  {
    if lines == [] then []
    else
      var init := lines[..|lines| - 1];
      assert forall k :: 0 <= k < |init| ==> init[k] == lines[k];
      LineKeywords(init) + [Keyword(lines[|lines| - 1])]
  }

  /** Every line's keyword is among the line keywords, and each of them is stripped. */
  lemma LineKeywordsMembers(lines: seq<string>)
    ensures forall line :: line in lines ==> Keyword(line) in LineKeywords(lines)
    ensures forall kw :: kw in LineKeywords(lines) ==> Stripped(kw)
  {
    var ks := LineKeywords(lines);
    forall line | line in lines
      ensures Keyword(line) in ks
    {
      var k :| 0 <= k < |lines| && lines[k] == line;
      assert ks[k] == Keyword(line);
    }
  }

  /** The node labels: the keywords of the lines, each kept where it first appears. */
  function Labels(lines: seq<string>): (r: seq<string>)
    ensures NoDups(r)
    ensures forall line :: line in lines ==> Keyword(line) in r
    ensures forall kw :: kw in r ==> kw in LineKeywords(lines) && Stripped(kw)
  {
    LineKeywordsMembers(lines);
    Distinct(LineKeywords(lines))
  }
}
