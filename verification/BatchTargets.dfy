/** Which users an organisational-unit or domain target selects. */
module BatchTargets {
  import opened Wrappers
  import opened LikePattern

  function RStrip(s: string, c: char): string {
    if s != "" && s[|s| - 1] == c then RStrip(s[..|s| - 1], c) else s
  }

  function LStrip(s: string, c: char): string {
    if s != "" && s[0] == c then LStrip(s[1..], c) else s
  }

  function EscapedOuPrefix(path: string): string {
    EscapeLike(RStrip(path, '/') + "/") + "%"
  }

  /** The OU filter on a user whose path may be unset. */
  predicate OuSelects(target: string, ouPath: Option<string>) {
    ouPath.Some? && (ouPath.value == target || Like(ouPath.value, EscapedOuPrefix(target), Exact))
  }

  /** The domain filter: ILIKE under `lower`, on a target first case-folded as a whole. */
  predicate DomainSelects(target: string, casefold: string -> string, email: string, lower: char -> char) {
    Like(email, "%@" + EscapeLike(LStrip(casefold(target), '@')), lower)
  }

  // ---------- Organisational units ----------

  predicate Segment(s: string) {
    s != "" && '/' !in s
  }

  predicate Segments(p: seq<string>) {
    forall i :: 0 <= i < |p| ==> Segment(p[i])
  }

  function Render(p: seq<string>): string {
    if p == [] then "" else "/" + p[0] + Render(p[1..])
  }

  /** The path of an OU given by its names from the top; the top itself is "/". */
  function Path(p: seq<string>): string {
    if p == [] then "/" else Render(p)
  }

  function Slashes(k: nat): string {
    seq(k, _ => '/')
  }

  /** Two names, each followed by a slash or by nothing: one text is a prefix of the other only if the names agree. */
  lemma NamesAlign(a: string, b: string, x: string, y: string)
    requires Segment(a) && Segment(b) && x != "" && x[0] == '/' && (y == "" || y[0] == '/')
    ensures a + x <= b + y ==> a == b
  {
    if |a| < |b| {
      assert b[|a|] in b && (a + x)[|a|] != (b + y)[|a|];
    } else if |b| < |a| {
      assert a[|b|] in a;
      assert y != "" ==> (a + x)[|b|] != (b + y)[|b|];
    } else if a + x <= b + y {
      assert forall i :: 0 <= i < |a| ==> a[i] == (a + x)[i] == (b + y)[i] == b[i];
    }
  }

  lemma {:induction false} RenderPrefix(t: seq<string>, u: seq<string>)
    requires Segments(t) && Segments(u)
    ensures Render(t) + "/" <= Render(u) <==> t < u
  {
    if t == [] {
      assert u != [] ==> t < u;
    } else if u != [] {
      RenderPrefix(t[1..], u[1..]);
      StepPrefix(t[0], u[0], Render(t[1..]) + "/", Render(u[1..]));
      assert Render(t) + "/" == "/" + t[0] + (Render(t[1..]) + "/");
      assert t < u <==> t[0] == u[0] && t[1..] < u[1..] by {
        assert t == [t[0]] + t[1..] && u == [u[0]] + u[1..];
      }
    }
  }

  lemma StepPrefix(a: string, b: string, x: string, y: string)
    requires Segment(a) && Segment(b) && x != "" && x[0] == '/' && (y == "" || y[0] == '/')
    ensures "/" + a + x <= "/" + b + y <==> a == b && x <= y
  {
    assert "/" + a + x == "/" + (a + x) && "/" + b + y == "/" + (b + y);
    PrefixAfter("/", a + x, b + y);
    NamesAlign(a, b, x, y);
    PrefixAfter(a, x, y);
  }

  lemma PrefixAfter(a: string, x: string, y: string)
    ensures a + x <= a + y <==> x <= y
  {
    if a + x <= a + y {
      assert forall i :: 0 <= i < |x| ==> x[i] == (a + x)[|a| + i] == (a + y)[|a| + i] == y[i];
    }
  }

  lemma {:induction false} RenderInjective(t: seq<string>, u: seq<string>)
    requires Segments(t) && Segments(u)
    ensures Render(t) == Render(u) <==> t == u
  {
    if Render(t) == Render(u) && t != [] && u != [] {
      var x, y := Render(t[1..]) + "/", Render(u[1..]) + "/";
      assert "/" + t[0] + x == Render(t) + "/" == Render(u) + "/" == "/" + u[0] + y;
      StepPrefix(t[0], u[0], x, y);
      StepPrefix(u[0], t[0], y, x);
      DropLast(Render(t[1..]), Render(u[1..]), '/');
      RenderInjective(t[1..], u[1..]);
      assert t == [t[0]] + t[1..] && u == [u[0]] + u[1..];
    }
  }

  lemma DropLast(a: string, b: string, c: char)
    requires a + [c] == b + [c]
    ensures a == b
  {
    assert (a + [c])[..|a|] == a && (b + [c])[..|b|] == b;
  }

  lemma RenderEndsInName(t: seq<string>)
    requires Segments(t) && t != []
    ensures Render(t) != "" && Render(t)[|Render(t)| - 1] != '/'
  {
    if |t| > 1 {
      RenderEndsInName(t[1..]);
    } else {
      assert Render(t) == "/" + t[0];
    }
  }

  lemma {:induction false} StripSlashes(s: string, k: nat)
    requires s == "" || s[|s| - 1] != '/'
    ensures RStrip(s + Slashes(k), '/') == s
  {
    if k == 0 {
      assert s + Slashes(0) == s;
    } else {
      assert (s + Slashes(k))[..|s| + k - 1] == s + Slashes(k - 1);
      StripSlashes(s, k - 1);
    }
  }

  /**
   An OU target, written with `k` trailing slashes, selects exactly its descendants, never a sibling
   that shares a name prefix; it selects the OU itself exactly when it has no trailing slash.
   */
  lemma OuSelectsSubtree(t: seq<string>, k: nat, u: seq<string>)
    requires Segments(t) && Segments(u) && t != []
    ensures OuSelects(Path(t) + Slashes(k), Some(Path(u))) <==> t < u || (t == u && k == 0)
  {
    var target, path := Path(t) + Slashes(k), Path(u);
    RenderEndsInName(t);
    StripSlashes(Render(t), k);
    PrefixPattern(path, Render(t) + "/");
    RenderPrefix(t, u);
    RenderInjective(t, u);
    if k == 0 {
      assert target == Render(t);
    } else {
      assert target[|target| - 1] == '/' && |target| > 1;
    }
    if u != [] {
      RenderEndsInName(u);
    }
  }

  /** The top OU selects every user that has a path, however many slashes are written. */
  lemma TopOuSelectsAll(k: nat, u: seq<string>)
    requires Segments(u)
    ensures OuSelects(Slashes(k), Some(Path(u))) && !OuSelects(Slashes(k), None)
  {
    StripSlashes("", k);
    assert "" + Slashes(k) == Slashes(k) && "" + "/" == "/" && "/" <= Path(u);
    PrefixPattern(Path(u), "/");
  }

  // ---------- Domains ----------

  /**
   A domain target selects exactly the addresses at that domain, up to case: no subdomain, no look-alike. An address has
   one at sign, so a target with another one inside selects none.
   */
  lemma DomainSelectsItsAddresses(target: string, casefold: string -> string, local: string, domain: string,
                                  lower: char -> char)
    requires '@' !in domain && ('@' !in local || '@' !in LStrip(casefold(target), '@'))
    requires forall c :: lower(c) == '@' <==> c == '@'
    ensures DomainSelects(target, casefold, local + "@" + domain, lower) <==>
            SameText(domain, LStrip(casefold(target), '@'), lower)
  {
    var d, s := LStrip(casefold(target), '@'), local + "@" + domain;
    SuffixPattern(s, d, lower);
    if |d| + 1 <= |s| {
      var tail := s[|s| - |d| - 1..];
      if |d| != |domain| {
        OtherLengthsDiffer(local, domain, d, lower);
      } else {
        assert tail == "@" + domain;
        SameTextHead("@" + domain, "@" + d, lower);
        assert ("@" + domain)[1..] == domain && ("@" + d)[1..] == d;
      }
    }
  }

  /** The only at sign of an address is where its domain starts. */
  lemma OtherLengthsDiffer(local: string, domain: string, d: string, lower: char -> char)
    requires '@' !in domain && ('@' !in local || '@' !in d) && |d| != |domain|
    requires forall c :: lower(c) == '@' <==> c == '@'
    requires |d| + 1 <= |local| + 1 + |domain|
    ensures var s := local + "@" + domain; !SameText(s[|s| - |d| - 1..], "@" + d, lower)
  {
    var s, p := local + "@" + domain, "@" + d;
    var tail := s[|s| - |d| - 1..];
    if |d| < |domain| {
      assert tail[0] == domain[|domain| - |d| - 1];
      assert lower(tail[0]) != lower(p[0]);
    } else if '@' !in local {
      assert tail[0] == local[|local| + |domain| - |d|];
      assert lower(tail[0]) != lower(p[0]);
    } else {
      var i := |d| - |domain|;
      assert tail[i] == s[|local|] == '@' && p[i] == d[i - 1];
      assert lower(tail[i]) != lower(p[i]);
    }
  }
}
