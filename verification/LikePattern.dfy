/** SQL LIKE with backslash escapes, and the escaping that makes user text match only itself. */
module LikePattern {

  /**
   PostgreSQL LIKE.  Literal characters are compared after `fold`: the identity for LIKE, the
   lower-casing of one character for ILIKE.  A pattern that ends in a lone escape matches nothing.
   */
  predicate Like(s: string, p: string, fold: char -> char)
    decreases |p|
  {
    if p == "" then s == ""
    else if p[0] == '%' then exists k :: 0 <= k <= |s| && Like(s[k..], p[1..], fold)
    else if p[0] == '_' then s != "" && Like(s[1..], p[1..], fold)
    else if p[0] == '\\' then |p| >= 2 && s != "" && fold(s[0]) == fold(p[1]) && Like(s[1..], p[2..], fold)
    else s != "" && fold(s[0]) == fold(p[0]) && Like(s[1..], p[1..], fold)
  }

  function Exact(c: char): char {
    c
  }

  // ---------- Escaping ----------

  function Replace(s: string, c: char, text: string): string {
    if s == "" then ""
    else (if s[0] == c then text else [s[0]]) + Replace(s[1..], c, text)
  }

  /** Backslash first, then the two wildcards. */
  function EscapeLike(value: string): string {
    Replace(Replace(Replace(value, '\\', "\\\\"), '%', "\\%"), '_', "\\_")
  }

  function EscapeChar(c: char): string {
    if c == '\\' || c == '%' || c == '_' then ['\\', c] else [c]
  }

  /** Escaping character by character. */
  function EscapeEach(value: string): string {
    if value == "" then "" else EscapeChar(value[0]) + EscapeEach(value[1..])
  }

  lemma {:induction false} ReplaceConcat(s: string, t: string, c: char, text: string)
    ensures Replace(s + t, c, text) == Replace(s, c, text) + Replace(t, c, text)
  {
    if s == "" {
      assert s + t == t;
    } else {
      assert (s + t)[1..] == s[1..] + t;
      ReplaceConcat(s[1..], t, c, text);
    }
  }

  lemma EscapeLikeOne(x: char)
    ensures EscapeLike([x]) == EscapeChar(x)
  {
    assert Replace([x], '\\', "\\\\") == if x == '\\' then "\\\\" else [x];
    if x == '\\' {
      assert Replace("\\", '%', "\\%") == "\\" && Replace("\\", '_', "\\_") == "\\";
      assert "\\\\" == "\\" + "\\";
      ReplaceConcat("\\", "\\", '%', "\\%");
      ReplaceConcat("\\", "\\", '_', "\\_");
    } else if x == '%' {
      assert "\\%" == "\\" + "%";
      assert Replace([x], '%', "\\%") == "\\%";
      ReplaceConcat("\\", "%", '_', "\\_");
      assert Replace("\\", '_', "\\_") == "\\" && Replace("%", '_', "\\_") == "%";
    } else {
      assert Replace([x], '%', "\\%") == [x];
      assert Replace([x], '_', "\\_") == EscapeChar(x);
    }
  }

  /** The three chained replacements are one escape per character: none escapes another's output. */
  lemma {:induction false} ChainedReplacesEscapeEach(value: string)
    ensures EscapeLike(value) == EscapeEach(value)
  {
    if value != "" {
      var x, rest := [value[0]], value[1..];
      assert value == x + rest;
      ChainedReplacesEscapeEach(rest);
      EscapeLikeOne(value[0]);
      ReplaceConcat(x, rest, '\\', "\\\\");
      ReplaceConcat(Replace(x, '\\', "\\\\"), Replace(rest, '\\', "\\\\"), '%', "\\%");
      ReplaceConcat(Replace(Replace(x, '\\', "\\\\"), '%', "\\%"), Replace(Replace(rest, '\\', "\\\\"), '%', "\\%"),
                    '_', "\\_");
    }
  }

  // ---------- What escaped patterns match ----------

  /** `s` and `t` are equal character by character after folding. */
  predicate SameText(s: string, t: string, fold: char -> char) {
    |s| == |t| && forall i :: 0 <= i < |s| ==> fold(s[i]) == fold(t[i])
  }

  /** One escaped character consumes exactly that character. */
  lemma EscapedChar(s: string, c: char, rest: string, fold: char -> char)
    ensures Like(s, EscapeChar(c) + rest, fold) <==> s != "" && fold(s[0]) == fold(c) && Like(s[1..], rest, fold)
  {
    var p := EscapeChar(c) + rest;
    assert p[|EscapeChar(c)|..] == rest;
  }

  /** Escaped text in a pattern consumes exactly that text. */
  lemma {:induction false} EscapedMatchesItself(s: string, value: string, q: string, fold: char -> char)
    ensures Like(s, EscapeEach(value) + q, fold) <==>
            |value| <= |s| && SameText(s[..|value|], value, fold) && Like(s[|value|..], q, fold)
  {
    hide Like;
    if value == "" {
      assert EscapeEach(value) + q == q && s[0..] == s;
    } else {
      var rest := EscapeEach(value[1..]) + q;
      assert EscapeEach(value) + q == EscapeChar(value[0]) + rest;
      EscapedChar(s, value[0], rest, fold);
      hide EscapeEach, EscapeChar;
      if s != "" {
        EscapedMatchesItself(s[1..], value[1..], q, fold);
        if |value| <= |s| {
          assert s[1..][|value| - 1..] == s[|value|..];
          assert s[1..][..|value| - 1] == s[..|value|][1..];
          SameTextHead(s[..|value|], value, fold);
        }
      }
    }
  }

  lemma SameTextHead(s: string, t: string, fold: char -> char)
    requires s != "" && t != ""
    ensures SameText(s, t, fold) <==> fold(s[0]) == fold(t[0]) && SameText(s[1..], t[1..], fold)
  {
    if fold(s[0]) == fold(t[0]) && SameText(s[1..], t[1..], fold) {
      forall i | 0 <= i < |s|
        ensures fold(s[i]) == fold(t[i])
      {
        if i > 0 {
          assert s[i] == s[1..][i - 1] && t[i] == t[1..][i - 1];
        }
      }
    }
  }

  lemma SameTextExact(s: string, t: string)
    ensures SameText(s, t, Exact) <==> s == t
  {
  }

  lemma PercentMatchesAll(s: string, fold: char -> char)
    ensures Like(s, "%", fold)
  {
    assert s[|s|..] == "" && "%"[1..] == "";
    assert Like(s[|s|..], "%"[1..], fold);
  }

  /** `escape(p) + "%"` matches exactly the strings that start with `p`. */
  lemma PrefixPattern(s: string, p: string)
    ensures Like(s, EscapeLike(p) + "%", Exact) <==> p <= s
  {
    ChainedReplacesEscapeEach(p);
    EscapedMatchesItself(s, p, "%", Exact);
    if |p| <= |s| {
      PercentMatchesAll(s[|p|..], Exact);
      SameTextExact(s[..|p|], p);
    }
  }

  /** Escaped text with nothing behind it matches exactly itself. */
  lemma EscapedAlone(s: string, value: string, fold: char -> char)
    ensures Like(s, EscapeEach(value), fold) <==> SameText(s, value, fold)
  {
    EscapedMatchesItself(s, value, "", fold);
    assert EscapeEach(value) + "" == EscapeEach(value);
    assert |value| == |s| ==> s[..|value|] == s && s[|value|..] == "";
  }

  lemma PercentMatchesSuffixes(s: string, tail: string, fold: char -> char)
    ensures Like(s, "%" + tail, fold) <==> exists k :: 0 <= k <= |s| && Like(s[k..], tail, fold)
  {
    assert ("%" + tail)[1..] == tail;
  }

  /** `"%@" + escape(d)` matches exactly the strings that end with `"@" + d`, up to folding. */
  lemma SuffixPattern(s: string, d: string, fold: char -> char)
    ensures Like(s, "%@" + EscapeLike(d), fold) <==>
            |d| + 1 <= |s| && SameText(s[|s| - |d| - 1..], "@" + d, fold)
  {
    ChainedReplacesEscapeEach(d);
    var tail := EscapeEach("@" + d);
    assert ("@" + d)[1..] == d;
    assert "%@" + EscapeEach(d) == "%" + tail;
    PercentMatchesSuffixes(s, tail, fold);
    forall k | 0 <= k <= |s|
      ensures Like(s[k..], tail, fold) <==> SameText(s[k..], "@" + d, fold)
    {
      EscapedAlone(s[k..], "@" + d, fold);
    }
    hide Like, EscapeEach, EscapeLike;
    assert forall k :: 0 <= k <= |s| && SameText(s[k..], "@" + d, fold) ==> k == |s| - |d| - 1;
  }
}
