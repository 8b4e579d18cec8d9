/**
 * The pieces of java.lang.String that keyword normalisation relies on:
 * strip, the \p{Punct} class, toLowerCase, split(" ") and the decimal
 * rendering of an int. Only the ASCII part of each is modelled.
 */
module Text {

  /** Character.isWhitespace on ASCII: space, \t \n \u000B \f \r and 0x1C..0x1F. */
  predicate IsWhite(c: char) {
    var k := c as int;
    k == 32 || 9 <= k <= 13 || 28 <= k <= 31
  }

  /** The POSIX class \p{Punct}: the 32 ASCII punctuation characters. */
  predicate IsPunct(c: char) {
    var k := c as int;
    33 <= k <= 47 || 58 <= k <= 64 || 91 <= k <= 96 || 123 <= k <= 126
  }

  predicate IsUpper(c: char) {
    'A' <= c <= 'Z'
  }

  /** Character.toLowerCase on ASCII letters. */
  function Lower(c: char): (r: char)
    ensures !IsUpper(r)
    ensures IsUpper(c) ==> 'a' <= r <= 'z' && r as int == c as int + 32
    ensures IsPunct(r) == IsPunct(c) && IsWhite(r) == IsWhite(c)
    ensures (r == ' ') == (c == ' ')
    ensures !IsUpper(c) ==> r == c
  {
    if IsUpper(c) then (c as int + 32) as char else c
  }

  /** A string with no white space at either end (what strip returns). */
  predicate Stripped(s: string) {
    s == [] || (!IsWhite(s[0]) && !IsWhite(s[|s| - 1]))
  }

  /** Every character is neither punctuation nor an upper-case letter. */
  predicate Plain(s: string) {
    forall c :: c in s ==> !IsPunct(c) && !IsUpper(c)
  }

  /** s without its leading white space. */
  function TrimStart(s: string): (r: string)
    ensures |r| <= |s|
    ensures r == [] || !IsWhite(r[0])
    ensures r != [] ==> r[|r| - 1] == s[|s| - 1]
    ensures forall k :: 0 <= k < |s| - |r| ==> IsWhite(s[k])
  {
    if s != [] && IsWhite(s[0]) then TrimStart(s[1..]) else s
  }

  /** s without its trailing white space. */
  function TrimEnd(s: string): (r: string)
    ensures |r| <= |s|
    ensures r == [] || !IsWhite(r[|r| - 1])
    ensures forall k :: |r| <= k < |s| ==> IsWhite(s[k])
  {
    if s != [] && IsWhite(s[|s| - 1]) then TrimEnd(s[..|s| - 1]) else s
  }

  /** TrimStart keeps a suffix of s. */
  lemma {:induction false} TrimStartSuffix(s: string)
    ensures forall k :: 0 <= k < |TrimStart(s)| ==> TrimStart(s)[k] == s[|s| - |TrimStart(s)| + k]
  {
    if s != [] && IsWhite(s[0]) {
      var t := TrimStart(s[1..]);
      TrimStartSuffix(s[1..]);
      forall k | 0 <= k < |t|
        ensures t[k] == s[|s| - |t| + k]
      {
        assert s[1..][|s| - 1 - |t| + k] == s[|s| - |t| + k];
      }
    }
  }

  /** TrimEnd keeps a prefix of s. */
  lemma {:induction false} TrimEndPrefix(s: string)
    ensures forall k :: 0 <= k < |TrimEnd(s)| ==> TrimEnd(s)[k] == s[k]
  {
    if s != [] && IsWhite(s[|s| - 1]) {
      TrimEndPrefix(s[..|s| - 1]);
    }
  }

  /** String.strip: the longest infix without white space at either end. */
  function Strip(s: string): (r: string)
    ensures Stripped(r)
    ensures Stripped(s) ==> r == s
  {
    TrimStart(TrimEnd(s))
  }

  /** Every character strip keeps comes from the string. */
  lemma StripChars(s: string)
    ensures forall c :: c in Strip(s) ==> c in s
  {
    var t := TrimEnd(s);
    var u := TrimStart(t);
    TrimEndPrefix(s);
    TrimStartSuffix(t);
    forall c | c in u
      ensures c in s
    {
      var k :| 0 <= k < |u| && u[k] == c;
      assert t[|t| - |u| + k] == c;
      assert s[|t| - |u| + k] == c;
    }
  }

  lemma TrimEndSpace(s: string)
    ensures TrimEnd(s + " ") == TrimEnd(s)
  {
    assert (s + " ")[..|s|] == s;
  }

  lemma TrimStartSpace(s: string)
    ensures TrimStart(" " + s) == TrimStart(s)
  {
    assert (" " + s)[1..] == s;
  }

  lemma StripTrailingSpace(s: string)
    ensures Strip(s + " ") == Strip(s)
  {
    TrimEndSpace(s);
  }

  /** Strip of a space followed by a string that does not end in white space. */
  lemma StripLeadingSpace(s: string)
    requires s != [] && !IsWhite(s[|s| - 1])
    ensures Strip(" " + s) == TrimStart(s)
  {
    var t := " " + s;
    assert t[|t| - 1] == s[|s| - 1];
    assert TrimEnd(t) == t;
    TrimStartSpace(s);
  }

  lemma StripBetweenSpaces(s: string)
    requires s != [] && Stripped(s)
    ensures Strip(" " + s + " ") == s
  {
    StripTrailingSpace(" " + s);
    StripLeadingSpace(s);
  }

  lemma StripBeforeSpaces(s: string)
    requires Stripped(s)
    ensures Strip(s + " " + " ") == s
  {
    StripTrailingSpace(s + " ");
    StripTrailingSpace(s);
  }

  lemma StripPlain(s: string)
    requires Plain(s)
    ensures Plain(Strip(s))
  {
    StripChars(s);
  }

  lemma StripIdempotent(s: string)
    ensures Strip(Strip(s)) == Strip(s)
  {
  }

  /** String.replaceAll("\\p{Punct}", ""). */
  function RemovePunct(s: string): (r: string)
    ensures forall c :: c in r <==> c in s && !IsPunct(c)
  {
    if s == [] then []
    else (if IsPunct(s[0]) then [] else [s[0]]) + RemovePunct(s[1..])
  }

  /** RemovePunct filters: it distributes over concatenation. */
  lemma {:induction false} RemovePunctAppend(a: string, b: string)
    ensures RemovePunct(a + b) == RemovePunct(a) + RemovePunct(b)
  {
    if a != [] {
      var head := if IsPunct(a[0]) then [] else [a[0]];
      assert (a + b)[0] == a[0] && (a + b)[1..] == a[1..] + b;
      assert RemovePunct(a + b) == head + RemovePunct(a[1..] + b);
      assert RemovePunct(a) == head + RemovePunct(a[1..]);
      RemovePunctAppend(a[1..], b);
    } else {
      assert a + b == b;
    }
  }

  /** RemovePunct keeps a character exactly when it is not punctuation. */
  lemma RemovePunctChar(c: char)
    ensures RemovePunct([c]) == if IsPunct(c) then [] else [c]
  {
    assert [c][1..] == [];
  }

  /** A string without punctuation is left as it is. */
  lemma {:induction false} RemovePunctPlain(s: string)
    requires Plain(s)
    ensures RemovePunct(s) == s
  {
    if s != [] {
      assert s[0] in s;
      assert forall c :: c in s[1..] ==> c in s;
      RemovePunctPlain(s[1..]);
    }
  }

  /** String.toLowerCase. */
  function LowerCase(s: string): (r: string)
    ensures |r| == |s|
    ensures forall k :: 0 <= k < |s| ==> r[k] == Lower(s[k])
    ensures forall c :: c in r ==> !IsUpper(c)
    ensures forall k :: 0 <= k < |s| ==> IsPunct(r[k]) == IsPunct(s[k]) && (r[k] == ' ') == (s[k] == ' ')
    ensures (forall c :: c in s ==> !IsUpper(c)) ==> r == s
  {
    seq(|s|, k requires 0 <= k < |s| => Lower(s[k]))
  }

  /** a and b differ at most in the case of their ASCII letters. */
  predicate SameUpToCase(a: string, b: string) {
    |a| == |b| && forall k :: 0 <= k < |a| ==> Lower(a[k]) == Lower(b[k])
  }

  /** Strings that differ only in case lower-case to the same string. */
  lemma LowerCaseUpToCase(a: string, b: string)
    requires SameUpToCase(a, b)
    ensures LowerCase(a) == LowerCase(b)
  {
  }

  /** The tails of strings that differ only in case differ only in case. */
  lemma UpToCaseTail(a: string, b: string)
    requires SameUpToCase(a, b) && a != []
    ensures Lower(a[0]) == Lower(b[0]) && SameUpToCase(a[1..], b[1..])
  {
    forall k | 0 <= k < |a| - 1
      ensures Lower(a[1..][k]) == Lower(b[1..][k])
    {
      assert a[1..][k] == a[k + 1] && b[1..][k] == b[k + 1];
    }
  }

  /** Prefixing characters with the same lower case keeps strings the same up to case. */
  lemma UpToCaseCons(x: char, y: char, a: string, b: string)
    requires Lower(x) == Lower(y) && SameUpToCase(a, b)
    ensures SameUpToCase([x] + a, [y] + b)
  {
    forall k | 0 <= k < |a| + 1
      ensures Lower(([x] + a)[k]) == Lower(([y] + b)[k])
    {
      if k > 0 {
        assert ([x] + a)[k] == a[k - 1] && ([y] + b)[k] == b[k - 1];
      }
    }
  }

  /** Removing punctuation keeps strings that differ only in case so related. */
  lemma {:induction false} RemovePunctUpToCase(a: string, b: string)
    requires SameUpToCase(a, b)
    ensures SameUpToCase(RemovePunct(a), RemovePunct(b))
  {
    if a != [] {
      UpToCaseTail(a, b);
      RemovePunctUpToCase(a[1..], b[1..]);
      assert IsPunct(a[0]) == IsPunct(b[0]) by {
        assert Lower(a[0]) == Lower(b[0]);
      }
      if !IsPunct(a[0]) {
        UpToCaseCons(a[0], b[0], RemovePunct(a[1..]), RemovePunct(b[1..]));
      }
    }
  }

  lemma {:induction false} TrimEndUpToCase(a: string, b: string)
    requires SameUpToCase(a, b)
    ensures SameUpToCase(TrimEnd(a), TrimEnd(b))
  {
    if a != [] {
      assert Lower(a[|a| - 1]) == Lower(b[|b| - 1]);
      TrimEndUpToCase(a[..|a| - 1], b[..|b| - 1]);
    }
  }

  lemma {:induction false} TrimStartUpToCase(a: string, b: string)
    requires SameUpToCase(a, b)
    ensures SameUpToCase(TrimStart(a), TrimStart(b))
  {
    if a != [] {
      assert Lower(a[0]) == Lower(b[0]);
      TrimStartUpToCase(a[1..], b[1..]);
    }
  }

  /** strip removes the same white space from strings that differ only in case. */
  lemma StripUpToCase(a: string, b: string)
    requires SameUpToCase(a, b)
    ensures SameUpToCase(Strip(a), Strip(b))
  {
    TrimEndUpToCase(a, b);
    TrimStartUpToCase(TrimEnd(a), TrimEnd(b));
  }

  /** The pieces of s between single spaces, empty pieces included. */
  function SplitAll(s: string): (r: seq<string>)
    ensures |r| >= 1
    ensures forall w :: w in r ==> ' ' !in w
    ensures s != [] && s[0] != ' ' ==> r[0] != []
  {
    if s == [] then [[]]
    else
      var rest := SplitAll(s[1..]);
      assert forall c :: c in [s[0]] + rest[0] ==> c == s[0] || c in rest[0];
      if s[0] == ' ' then [[]] + rest else [[s[0]] + rest[0]] + rest[1..]
  }

  /** The pieces of a plain string are plain. */
  lemma {:induction false} SplitAllPlain(s: string)
    requires Plain(s)
    ensures forall w :: w in SplitAll(s) ==> Plain(w)
  {
    if s != [] {
      var rest := SplitAll(s[1..]);
      assert forall c :: c in s[1..] ==> c in s;
      SplitAllPlain(s[1..]);
      if s[0] != ' ' {
        assert rest[0] in rest && s[0] in s;
        assert forall c :: c in [s[0]] + rest[0] ==> c == s[0] || c in rest[0];
        assert forall w :: w in rest[1..] ==> w in rest;
      }
    }
  }

  /** The pieces joined with single spaces (String.join(" ", ws)). */
  function Intercalate(ws: seq<string>): string {
    if |ws| == 0 then []
    else if |ws| == 1 then ws[0]
    else ws[0] + " " + Intercalate(ws[1..])
  }

  lemma {:induction false} IntercalateSplitAll(s: string)
    ensures Intercalate(SplitAll(s)) == s
  {
    if s != [] {
      var rest := SplitAll(s[1..]);
      IntercalateSplitAll(s[1..]);
      if s[0] == ' ' {
        assert SplitAll(s) == [[]] + rest;
        assert s == [] + " " + s[1..];
      } else if |rest| == 1 {
        assert SplitAll(s) == [[s[0]] + rest[0]];
        assert s == [s[0]] + s[1..];
      } else {
        var r := SplitAll(s);
        assert r == [[s[0]] + rest[0]] + rest[1..];
        assert r[1..] == rest[1..];
        assert s == [s[0]] + s[1..];
      }
    }
  }

  lemma {:induction false} SplitAllWord(w: string)
    requires ' ' !in w
    ensures SplitAll(w) == [w]
  {
    if w != [] {
      SplitAllWord(w[1..]);
      assert w == [w[0]] + w[1..];
    }
  }

  lemma {:induction false} SplitAllWordThen(w: string, rest: string)
    requires ' ' !in w
    ensures SplitAll(w + " " + rest) == [w] + SplitAll(rest)
  {
    var s := w + " " + rest;
    if w == [] {
      assert s[1..] == rest;
    } else {
      assert s[1..] == w[1..] + " " + rest;
      SplitAllWordThen(w[1..], rest);
      assert w == [w[0]] + w[1..];
    }
  }

  lemma {:induction false} SplitAllIntercalate(ws: seq<string>)
    requires |ws| >= 1
    requires forall w :: w in ws ==> ' ' !in w
    ensures SplitAll(Intercalate(ws)) == ws
  {
    if |ws| == 1 {
      SplitAllWord(ws[0]);
    } else {
      SplitAllIntercalate(ws[1..]);
      SplitAllWordThen(ws[0], Intercalate(ws[1..]));
      assert ws == [ws[0]] + ws[1..];
    }
  }

  /** The array String.split returns once trailing empty strings are removed. */
  function DropTrailingEmpty(ws: seq<string>): (r: seq<string>)
    ensures |r| <= |ws| && r == ws[..|r|]
    ensures r == [] || r[|r| - 1] != []
    ensures forall k :: |r| <= k < |ws| ==> ws[k] == []
  {
    if ws != [] && ws[|ws| - 1] == [] then DropTrailingEmpty(ws[..|ws| - 1]) else ws
  }

  /**
   * String.split(" "): when no space matches, the whole string is the one
   * piece (so "" gives [""]); otherwise the pieces between spaces with the
   * trailing empty ones removed (so " " gives []).
   */
  function SplitOnSpace(s: string): (r: seq<string>)
    ensures forall w :: w in r ==> ' ' !in w
    ensures (s == [] || s[0] != ' ') ==> |r| >= 1
    ensures s != [] ==> r == DropTrailingEmpty(SplitAll(s))
  {
    if s == [] then [[]]
    else
      var r := DropTrailingEmpty(SplitAll(s));
      assert forall w :: w in r ==> w in SplitAll(s);
      r
  }

  /** The tokens of a plain string are plain. */
  lemma SplitOnSpacePlain(s: string)
    requires Plain(s)
    ensures forall w :: w in SplitOnSpace(s) ==> Plain(w)
  {
    if s != [] {
      SplitAllPlain(s);
      var all := SplitAll(s);
      var r := DropTrailingEmpty(all);
      assert forall w :: w in r ==> w in all;
    }
  }

  /** Splitting a string that does not end in a space and rejoining gives it back. */
  lemma SplitOnSpaceRejoin(s: string)
    requires s != [] && s[|s| - 1] != ' '
    ensures Intercalate(SplitOnSpace(s)) == s
  {
    IntercalateSplitAll(s);
    var all := SplitAll(s);
    if |all| >= 2 && all[|all| - 1] == [] {
      IntercalateLast(all);
      assert false;
    }
  }

  lemma {:induction false} IntercalateLast(ws: seq<string>)
    requires |ws| >= 2 && ws[|ws| - 1] == []
    ensures Intercalate(ws) != [] && Intercalate(ws)[|Intercalate(ws)| - 1] == ' '
  {
    if |ws| > 2 {
      IntercalateLast(ws[1..]);
    }
  }

  function Digit(d: nat): (c: char)
    requires d < 10
    ensures '0' <= c <= '9' && c as int - '0' as int == d
  {
    ('0' as int + d) as char
  }

  predicate IsDigits(s: string) {
    forall k :: 0 <= k < |s| ==> '0' <= s[k] <= '9'
  }

  /** Decimal rendering of a non-negative int ("" + i). */
  function DecimalString(n: nat): (s: string)
    ensures |s| >= 1 && IsDigits(s)
    ensures |s| == 1 || s[0] != '0'
    ensures s[0] == '0' <==> n == 0
  {
    if n < 10 then [Digit(n)] else DecimalString(n / 10) + [Digit(n % 10)]
  }

  /** Value of a string of decimal digits. */
  function DecimalValue(s: string): nat
    requires IsDigits(s)
  {
    if s == [] then 0
    else
      10 * DecimalValue(s[..|s| - 1]) + (s[|s| - 1] as int - '0' as int)
  }

  lemma {:induction false} DecimalRoundTrip(n: nat)
    ensures DecimalValue(DecimalString(n)) == n
  {
    if n >= 10 {
      DecimalRoundTrip(n / 10);
      var s := DecimalString(n);
      assert s[..|s| - 1] == DecimalString(n / 10);
    }
  }

  /** Distinct numbers have distinct decimal renderings. */
  lemma DecimalStringInjective(p: nat, q: nat)
    requires DecimalString(p) == DecimalString(q)
    ensures p == q
  {
    DecimalRoundTrip(p);
    DecimalRoundTrip(q);
  }
}
