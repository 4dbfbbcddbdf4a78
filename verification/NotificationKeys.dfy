/**
 The key that makes a notification unique: finding ids as text, sorted without duplicates, behind the user and the
 template with no delimiters.
 */
module NotificationKeys {
  import opened Wrappers
  import opened AsciiText

  // ---------- Ids as text ----------

  function HexDigit(d: int): Byte
    requires 0 <= d < 16
  {
    if d < 10 then d + '0' as int else d - 10 + 'a' as int
  }

  function Hex(b: Bytes): (h: Bytes)
    ensures |h| == 2 * |b|
  {
    if b == [] then [] else [HexDigit(b[0] / 16), HexDigit(b[0] % 16)] + Hex(b[1..])
  }

  const DASH: Byte := 45

  const ID_LENGTH := 36

  /** The canonical text of a 16-byte id, as ASCII. */
  function IdText(u: Bytes): (t: Bytes)
    requires |u| == 16
    ensures |t| == ID_LENGTH
  {
    Hex(u[..4]) + [DASH] + Hex(u[4..6]) + [DASH] + Hex(u[6..8]) + [DASH] + Hex(u[8..10]) + [DASH] + Hex(u[10..])
  }

  lemma {:induction false} HexIsInjective(a: Bytes, b: Bytes)
    requires Hex(a) == Hex(b)
    ensures a == b
  {
    if a != [] {
      var s, t := Hex(a), Hex(b);
      assert s[2..] == Hex(a[1..]) && t[2..] == Hex(b[1..]);
      HexIsInjective(a[1..], b[1..]);
      hide Hex;
      assert s[0] == t[0] && s[1] == t[1];
      assert a[0] == b[0];
      assert a == [a[0]] + a[1..] && b == [b[0]] + b[1..];
    }
  }

  /** The value of a lower-case hexadecimal digit. */
  function HexValue(c: Byte): int {
    if '0' as int <= c <= '9' as int then c - '0' as int
    else if 'a' as int <= c <= 'f' as int then c - 'a' as int + 10
    else -1
  }

  /** Two digits for each byte, the greater first. */
  lemma {:induction false} HexReads(b: Bytes, i: nat)
    requires i < |b|
    ensures 0 <= HexValue(Hex(b)[2 * i]) && 0 <= HexValue(Hex(b)[2 * i + 1])
    ensures b[i] == 16 * HexValue(Hex(b)[2 * i]) + HexValue(Hex(b)[2 * i + 1])
  {
    if i > 0 {
      HexReads(b[1..], i - 1);
      assert Hex(b)[2..] == Hex(b[1..]);
    }
  }

  lemma IdTextIsInjective(u: Bytes, v: Bytes)
    requires |u| == 16 && |v| == 16 && IdText(u) == IdText(v)
    ensures u == v
  {
    hide Hex;
    IdTextParts(u);
    IdTextParts(v);
    hide IdText;
    HexIsInjective(u[..4], v[..4]);
    HexIsInjective(u[4..6], v[4..6]);
    HexIsInjective(u[6..8], v[6..8]);
    HexIsInjective(u[8..10], v[8..10]);
    HexIsInjective(u[10..], v[10..]);
    assert u == u[..4] + u[4..6] + u[6..8] + u[8..10] + u[10..];
    assert v == v[..4] + v[4..6] + v[6..8] + v[8..10] + v[10..];
  }

  lemma IdTextParts(u: Bytes)
    requires |u| == 16
    ensures var t := IdText(u);
            && t[..8] == Hex(u[..4]) && t[9..13] == Hex(u[4..6]) && t[14..18] == Hex(u[6..8])
            && t[19..23] == Hex(u[8..10]) && t[24..] == Hex(u[10..])
  {
    PartsOf(Hex(u[..4]), Hex(u[4..6]), Hex(u[6..8]), Hex(u[8..10]), Hex(u[10..]), IdText(u));
    hide *;
  }

  lemma PartsOf(a: Bytes, b: Bytes, c: Bytes, d: Bytes, e: Bytes, t: Bytes)
    requires |a| == 8 && |b| == 4 && |c| == 4 && |d| == 4
    requires t == a + [DASH] + b + [DASH] + c + [DASH] + d + [DASH] + e
    ensures t[..8] == a && t[9..13] == b && t[14..18] == c && t[19..23] == d && t[24..] == e
  {
  }

  // ---------- Sorting without duplicates ----------

  /** The order of strings: by the first character that differs, a proper prefix first. */
  predicate Less(a: Bytes, b: Bytes) {
    if b == [] then false
    else if a == [] then true
    else if a[0] != b[0] then a[0] < b[0]
    else Less(a[1..], b[1..])
  }

  lemma {:induction false} LessIsTotal(a: Bytes, b: Bytes)
    ensures Less(a, b) || Less(b, a) || a == b
    ensures !(Less(a, b) && Less(b, a)) && !Less(a, a)
  {
    if a != [] && b != [] && a[0] == b[0] {
      LessIsTotal(a[1..], b[1..]);
      assert a == [a[0]] + a[1..] && b == [b[0]] + b[1..];
    }
    if a != [] {
      LessIsTotal(a[1..], a[1..]);
    }
  }

  lemma {:induction false} LessIsTransitive(a: Bytes, b: Bytes, c: Bytes)
    requires Less(a, b) && Less(b, c)
    ensures Less(a, c)
  {
    if a != [] && a[0] == b[0] == c[0] {
      LessIsTransitive(a[1..], b[1..], c[1..]);
    }
  }

  function Insert(x: Bytes, s: seq<Bytes>): seq<Bytes> {
    if s == [] then [x]
    else if x == s[0] then s
    else if Less(x, s[0]) then [x] + s
    else [s[0]] + Insert(x, s[1..])
  }

  /** The distinct items in order. */
  function Canonical(items: seq<Bytes>): seq<Bytes> {
    if items == [] then [] else Insert(items[0], Canonical(items[1..]))
  }

  predicate Increasing(s: seq<Bytes>) {
    s == [] || ((forall j :: 1 <= j < |s| ==> Less(s[0], s[j])) && Increasing(s[1..]))
  }

  lemma {:induction false} InsertAdds(x: Bytes, s: seq<Bytes>)
    requires Increasing(s)
    ensures Increasing(Insert(x, s))
    ensures forall y :: y in Insert(x, s) <==> y == x || y in s
  {
    if s != [] && x != s[0] {
      LessIsTotal(x, s[0]);
      if Less(x, s[0]) {
        InsertFirst(x, s);
      } else {
        InsertAdds(x, s[1..]);
        InsertLater(s[0], s[1..], Insert(x, s[1..]), x);
        assert s == [s[0]] + s[1..];
      }
    }
  }

  lemma InsertFirst(x: Bytes, s: seq<Bytes>)
    requires s != [] && Increasing(s) && Less(x, s[0])
    ensures Increasing([x] + s)
  {
    assert ([x] + s)[1..] == s;
    forall j | 1 <= j < |s|
      ensures Less(x, s[j])
    {
      LessIsTransitive(x, s[0], s[j]);
    }
  }

  lemma InsertLater(first: Bytes, rest: seq<Bytes>, more: seq<Bytes>, x: Bytes)
    requires Increasing(more) && Less(first, x) && forall j :: 0 <= j < |rest| ==> Less(first, rest[j])
    requires forall y :: y in more <==> y == x || y in rest
    ensures Increasing([first] + more)
  {
    assert ([first] + more)[1..] == more;
    forall j | 0 <= j < |more|
      ensures Less(first, more[j])
    {
      assert more[j] in more;
    }
  }

  /** Sorting keeps exactly the items there are. */
  lemma {:induction false} CanonicalIsSorted(items: seq<Bytes>)
    ensures Increasing(Canonical(items))
    ensures forall y :: y in Canonical(items) <==> y in items
  {
    if items != [] {
      CanonicalIsSorted(items[1..]);
      InsertAdds(items[0], Canonical(items[1..]));
      assert items == [items[0]] + items[1..];
    }
  }

  predicate SameItems(a: seq<Bytes>, b: seq<Bytes>) {
    (forall x :: x in a ==> x in b) && forall x :: x in b ==> x in a
  }

  lemma {:induction false} SortedIsUnique(s: seq<Bytes>, t: seq<Bytes>)
    requires Increasing(s) && Increasing(t) && SameItems(s, t)
    ensures s == t
  {
    BothOrNeitherEmpty(s, t);
    if s != [] && t != [] {
      SameFirst(s, t);
      TailItems(s);
      TailItems(t);
      assert SameItems(s[1..], t[1..]);
      SortedIsUnique(s[1..], t[1..]);
      assert s == [s[0]] + s[1..] && t == [t[0]] + t[1..];
    }
  }

  lemma BothOrNeitherEmpty(s: seq<Bytes>, t: seq<Bytes>)
    requires SameItems(s, t)
    ensures s == [] <==> t == []
  {
    if s != [] {
      assert s[0] in t;
    }
    if t != [] {
      assert t[0] in s;
    }
  }

  lemma SameFirst(s: seq<Bytes>, t: seq<Bytes>)
    requires s != [] && t != [] && Increasing(s) && Increasing(t) && SameItems(s, t)
    ensures s[0] == t[0]
  {
    assert s[0] in t && t[0] in s;
    var i :| 0 <= i < |t| && t[i] == s[0];
    var j :| 0 <= j < |s| && s[j] == t[0];
    LessIsTotal(s[0], t[0]);
  }

  lemma TailItems(s: seq<Bytes>)
    requires s != [] && Increasing(s)
    ensures forall x :: x in s[1..] <==> x in s && x != s[0]
  {
    LessIsTotal(s[0], s[0]);
    forall x | x in s[1..]
      ensures x in s && x != s[0]
    {
      var j :| 1 <= j < |s| && s[j] == x;
    }
  }

  /** Sorting forgets order and repetition, and nothing else. */
  lemma CanonicalIsTheSet(a: seq<Bytes>, b: seq<Bytes>)
    ensures Canonical(a) == Canonical(b) <==> SameItems(a, b)
  {
    CanonicalIsSorted(a);
    CanonicalIsSorted(b);
    if SameItems(a, b) {
      SortedIsUnique(Canonical(a), Canonical(b));
    }
  }

  // ---------- The key ----------

  /** "leakcheck/notification/v1" and a zero byte. */
  const PREFIX: Bytes :=
    [ 108, 101, 97, 107, 99, 104, 101, 99, 107, 47, 110, 111, 116, 105, 102, 105, 99, 97, 116, 105, 111, 110, 47,
      118, 49, 0 ]

  const NEW_FINDINGS_LENGTH := 12
  const DIGEST_LENGTH := 26

  /** The two templates there are: "new_findings", and "findings_digest:" with an ISO date. */
  predicate IsTemplate(template: Bytes) {
    |template| == NEW_FINDINGS_LENGTH || |template| == DIGEST_LENGTH
  }

  predicate AreIds(ids: seq<Bytes>) {
    forall i :: 0 <= i < |ids| ==> |ids[i]| == ID_LENGTH
  }

  function Joined(ids: seq<Bytes>): Bytes {
    if ids == [] then [] else ids[0] + Joined(ids[1..])
  }

  function KeyImage(user: Bytes, template: Bytes, ids: seq<Bytes>): Bytes {
    PREFIX + user + template + Joined(ids)
  }

  lemma {:induction false} JoinedLength(ids: seq<Bytes>)
    requires AreIds(ids)
    ensures |Joined(ids)| == ID_LENGTH * |ids|
  {
    if ids != [] {
      JoinedLength(ids[1..]);
    }
  }

  lemma {:induction false} JoinedIsInjective(a: seq<Bytes>, b: seq<Bytes>)
    requires AreIds(a) && AreIds(b) && Joined(a) == Joined(b)
    ensures a == b
  {
    JoinedLength(a);
    JoinedLength(b);
    if a != [] && b != [] {
      SplitAt(a[0], Joined(a[1..]), b[0], Joined(b[1..]));
      JoinedIsInjective(a[1..], b[1..]);
      assert a == [a[0]] + a[1..] && b == [b[0]] + b[1..];
    }
  }

  lemma SplitAt(a: Bytes, x: Bytes, b: Bytes, y: Bytes)
    requires a + x == b + y && |a| == |b|
    ensures a == b && x == y
  {
    assert (a + x)[..|a|] == a && (b + y)[..|b|] == b;
    assert (a + x)[|a|..] == x && (b + y)[|b|..] == y;
  }

  /** Without delimiters the templates are still told apart: their lengths differ modulo the length of an id. */
  lemma SameImageLength(m: nat, n: nat, i: nat, j: nat)
    requires m == NEW_FINDINGS_LENGTH || m == DIGEST_LENGTH
    requires n == NEW_FINDINGS_LENGTH || n == DIGEST_LENGTH
    requires m + ID_LENGTH * i == n + ID_LENGTH * j
    ensures m == n
  {
    assert (m + ID_LENGTH * i) % ID_LENGTH == m && (n + ID_LENGTH * j) % ID_LENGTH == n;
  }

  lemma KeyImageIsInjective(u: Bytes, s: Bytes, a: seq<Bytes>, v: Bytes, t: Bytes, b: seq<Bytes>)
    requires |u| == 16 && |v| == 16 && IsTemplate(s) && IsTemplate(t) && AreIds(a) && AreIds(b)
    requires KeyImage(u, s, a) == KeyImage(v, t, b)
    ensures u == v && s == t && a == b
  {
    JoinedLength(a);
    JoinedLength(b);
    SameImageLength(|s|, |t|, |a|, |b|);
    hide Joined;
    var x, y := Joined(a), Joined(b);
    assert KeyImage(u, s, a) == PREFIX + (u + (s + x)) && KeyImage(v, t, b) == PREFIX + (v + (t + y));
    SplitAt(PREFIX, u + (s + x), PREFIX, v + (t + y));
    SplitAt(u, s + x, v, t + y);
    SplitAt(s, x, t, y);
    JoinedIsInjective(a, b);
  }

  // ---------- Requests ----------

  /** What a caller asks to be notified of. */
  datatype Request = Request(user: Bytes, template: Bytes, findings: seq<Bytes>)

  predicate WellFormed(q: Request) {
    |q.user| == 16 && IsTemplate(q.template) && forall i :: 0 <= i < |q.findings| ==> |q.findings[i]| == 16
  }

  function Texts(findings: seq<Bytes>): (r: seq<Bytes>)
    requires forall i :: 0 <= i < |findings| ==> |findings[i]| == 16
    ensures |r| == |findings|
  {
    seq(|findings|, i requires 0 <= i < |findings| => IdText(findings[i]))
  }

  function ImageOf(q: Request): Bytes
    requires WellFormed(q)
  {
    KeyImage(q.user, q.template, Canonical(Texts(q.findings)))
  }

  predicate SameRequest(p: Request, q: Request) {
    p.user == q.user && p.template == q.template && SameItems(p.findings, q.findings)
  }

  lemma TextsKeepItems(a: seq<Bytes>, b: seq<Bytes>)
    requires forall i :: 0 <= i < |a| ==> |a[i]| == 16
    requires forall i :: 0 <= i < |b| ==> |b[i]| == 16
    requires forall x :: x in a ==> x in b
    ensures forall x :: x in Texts(a) ==> x in Texts(b)
  {
    hide IdText;
    forall x | x in Texts(a)
      ensures x in Texts(b)
    {
      var i :| 0 <= i < |a| && Texts(a)[i] == x;
      assert a[i] in b;
      var j :| 0 <= j < |b| && b[j] == a[i];
      assert Texts(b)[j] == x;
    }
  }

  lemma TextsGiveItems(a: seq<Bytes>, b: seq<Bytes>)
    requires forall i :: 0 <= i < |a| ==> |a[i]| == 16
    requires forall i :: 0 <= i < |b| ==> |b[i]| == 16
    requires forall x :: x in Texts(a) ==> x in Texts(b)
    ensures forall x :: x in a ==> x in b
  {
    hide IdText;
    forall x | x in a
      ensures x in b
    {
      var i :| 0 <= i < |a| && a[i] == x;
      assert Texts(a)[i] in Texts(b);
      var j :| 0 <= j < |b| && Texts(b)[j] == Texts(a)[i];
      IdTextIsInjective(a[i], b[j]);
    }
  }

  lemma CanonicalAreIds(findings: seq<Bytes>)
    requires forall i :: 0 <= i < |findings| ==> |findings[i]| == 16
    ensures AreIds(Canonical(Texts(findings)))
  {
    CanonicalIsSorted(Texts(findings));
    hide Canonical, IdText;
    var ids := Canonical(Texts(findings));
    forall i | 0 <= i < |ids|
      ensures |ids[i]| == ID_LENGTH
    {
      assert ids[i] in Texts(findings);
    }
  }

  /** Two requests hash the same bytes exactly when they are for the same user, template and set of findings. */
  lemma ImagesTellRequestsApart(p: Request, q: Request)
    requires WellFormed(p) && WellFormed(q)
    ensures ImageOf(p) == ImageOf(q) <==> SameRequest(p, q)
  {
    var a, b := Texts(p.findings), Texts(q.findings);
    CanonicalIsTheSet(a, b);
    CanonicalAreIds(p.findings);
    CanonicalAreIds(q.findings);
    hide Canonical, KeyImage, IdText, Texts;
    if ImageOf(p) == ImageOf(q) {
      KeyImageIsInjective(p.user, p.template, Canonical(a), q.user, q.template, Canonical(b));
      TextsGiveItems(p.findings, q.findings);
      TextsGiveItems(q.findings, p.findings);
    } else if SameItems(p.findings, q.findings) {
      TextsKeepItems(p.findings, q.findings);
      TextsKeepItems(q.findings, p.findings);
    }
  }
}
