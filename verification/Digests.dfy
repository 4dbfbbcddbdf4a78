/** What is fed to the hash functions: the length-prefixed parts of a finding's fingerprint and identity key. */
module Digests {
  import opened Wrappers
  import opened AsciiText

  const WORD: nat := 0x1_0000_0000

  // ---------- Length-prefixed parts ----------

  /** Four bytes, the most significant first. */
  function BigEndian(n: nat): (b: Bytes)
    requires n < WORD
    ensures |b| == 4
  {
    [n / 0x100_0000, n / 0x1_0000 % 0x100, n / 0x100 % 0x100, n % 0x100]
  }

  predicate Frameable(parts: seq<Bytes>) {
    forall i :: 0 <= i < |parts| ==> |parts[i]| < WORD
  }

  function Framed(parts: seq<Bytes>): Bytes
    requires Frameable(parts)
  {
    if parts == [] then []
    else Framed(parts[..|parts| - 1]) + BigEndian(|parts[|parts| - 1]|) + parts[|parts| - 1]
  }

  lemma BigEndianIsInjective(m: nat, n: nat)
    requires m < WORD && n < WORD && BigEndian(m) == BigEndian(n)
    ensures m == n
  {
    WordOfBytes(m);
    WordOfBytes(n);
    hide BigEndian;
  }

  lemma WordOfBytes(n: nat)
    requires n < WORD
    ensures var b := BigEndian(n);
            n == (b[0] as int) * 0x100_0000 + (b[1] as int) * 0x1_0000 + (b[2] as int) * 0x100 + b[3] as int
  {
    assert n / 0x1_0000 / 0x100 == n / 0x100_0000 && n / 0x100 / 0x100 == n / 0x1_0000;
  }

  /** The same parts, taken from the front. */
  lemma {:induction false} FramedFromFront(parts: seq<Bytes>)
    requires Frameable(parts) && parts != []
    ensures Framed(parts) == BigEndian(|parts[0]|) + (parts[0] + Framed(parts[1..]))
  {
    var n := |parts| - 1;
    var last := parts[n];
    if n == 0 {
      assert parts[..0] == [] && parts[1..] == [];
    } else {
      FramedFromFront(parts[..n]);
      assert parts[..n][1..] == parts[1..][..n - 1] && parts[1..][n - 1] == last;
      FramesJoin(BigEndian(|parts[0]|), parts[0], Framed(parts[1..][..n - 1]), BigEndian(|last|), last);
    }
  }

  lemma FramesJoin(a: Bytes, b: Bytes, c: Bytes, d: Bytes, e: Bytes)
    ensures a + (b + c) + d + e == a + (b + (c + d + e))
  {
  }

  /** Length-prefixed parts can be told apart, whatever their number. */
  lemma {:induction false} FramedIsInjective(p: seq<Bytes>, q: seq<Bytes>)
    requires Frameable(p) && Frameable(q) && Framed(p) == Framed(q)
    ensures p == q
  {
    if p == [] || q == [] {
      FramedIsEmpty(p);
      FramedIsEmpty(q);
    } else {
      FramedFromFront(p);
      FramedFromFront(q);
      hide Framed, BigEndian;
      SameFirstFrame(p[0], Framed(p[1..]), q[0], Framed(q[1..]));
      FramedIsInjective(p[1..], q[1..]);
      assert p == [p[0]] + p[1..] && q == [q[0]] + q[1..];
    }
  }

  lemma FramedIsEmpty(p: seq<Bytes>)
    requires Frameable(p)
    ensures Framed(p) == [] <==> p == []
  {
  }

  lemma SameFirstFrame(a: Bytes, x: Bytes, b: Bytes, y: Bytes)
    requires |a| < WORD && |b| < WORD && BigEndian(|a|) + (a + x) == BigEndian(|b|) + (b + y)
    ensures a == b && x == y
  {
    var s, t := BigEndian(|a|) + (a + x), BigEndian(|b|) + (b + y);
    assert s[..4] == BigEndian(|a|) && t[..4] == BigEndian(|b|);
    BigEndianIsInjective(|a|, |b|);
    assert s[4..] == a + x && t[4..] == b + y;
    assert (a + x)[..|a|] == a && (b + y)[..|b|] == b;
    assert (a + x)[|a|..] == x && (b + y)[|b|..] == y;
  }

  /** The digest loop; a part whose length does not fit four bytes is an overflow error. */
  method DigestOf(parts: seq<Bytes>, sha256: Bytes -> Bytes) returns (digest: Option<Bytes>)
    ensures digest == if Frameable(parts) then Some(sha256(Framed(parts))) else None
    ensures digest.None? <==> exists i :: 0 <= i < |parts| && |parts[i]| >= 0x1_0000_0000
  {
    var fed: Bytes := [];
    for i := 0 to |parts|
      invariant Frameable(parts[..i]) && fed == Framed(parts[..i])
    {
      if |parts[i]| >= WORD {
        return None;
      }
      assert parts[..i + 1][..i] == parts[..i];
      fed := fed + BigEndian(|parts[i]|);
      fed := fed + parts[i];
    }
    assert parts[..|parts|] == parts;
    digest := Some(sha256(fed));
  }

  // ---------- Findings ----------

  /** The fields of a finding that identify it, encoded; the normalized ones are empty when absent. */
  datatype Traits = Traits(kind: Bytes, subject: Bytes, source: Bytes, breachDate: Bytes, email: Bytes, username: Bytes,
                           phone: Bytes, passwordHash: Option<Bytes>)

  function ZeroHash(): Bytes {
    seq(32, _ => 0)
  }

  /** A missing and an empty hash both stand for the zero hash. */
  function HashPart(hash: Option<Bytes>): Bytes {
    if hash.None? || hash.value == [] then ZeroHash() else hash.value
  }

  function FingerprintParts(f: Traits): seq<Bytes> {
    [f.kind, f.subject, f.source, f.breachDate, f.email, f.username, f.phone, HashPart(f.passwordHash)]
  }

  function IdentityParts(f: Traits): seq<Bytes> {
    [f.email, f.username, f.phone]
  }

  method FindingFingerprint(f: Traits, sha256: Bytes -> Bytes) returns (digest: Option<Bytes>)
    ensures digest == if Frameable(FingerprintParts(f)) then Some(sha256(Framed(FingerprintParts(f)))) else None
  {
    digest := DigestOf(FingerprintParts(f), sha256);
  }

  datatype Identity = NoIdentity | Overflow | Key(digest: Bytes)

  method IdentityKey(f: Traits, sha256: Bytes -> Bytes) returns (key: Identity)
    ensures key.NoIdentity? <==> f.email == [] && f.username == [] && f.phone == []
    ensures key.Overflow? <==> !Frameable(IdentityParts(f))
    ensures key.Key? ==> key.digest == sha256(Framed(IdentityParts(f)))
  {
    if f.email == [] && f.username == [] && f.phone == [] {
      assert Frameable(IdentityParts(f));
      return NoIdentity;
    }
    var digest := DigestOf(IdentityParts(f), sha256);
    key := if digest.None? then Overflow else Key(digest.value);
  }

  /** No hash, an empty one and 32 zero bytes are the same. */
  predicate StandsForNone(hash: Option<Bytes>) {
    hash.None? || hash.value == [] || hash.value == seq(32, _ => 0)
  }

  /** Two findings hash the same bytes exactly when they agree on every trait, a missing hash being the zero hash. */
  lemma FingerprintTellsApart(f: Traits, g: Traits)
    requires Frameable(FingerprintParts(f)) && Frameable(FingerprintParts(g))
    ensures Framed(FingerprintParts(f)) == Framed(FingerprintParts(g)) <==>
            && f.kind == g.kind && f.subject == g.subject && f.source == g.source && f.breachDate == g.breachDate
            && f.email == g.email && f.username == g.username && f.phone == g.phone
            && (f.passwordHash == g.passwordHash ||
                (StandsForNone(f.passwordHash) && StandsForNone(g.passwordHash)))
  {
    var p, q := FingerprintParts(f), FingerprintParts(g);
    if Framed(p) == Framed(q) {
      FramedIsInjective(p, q);
      assert forall i :: 0 <= i < 8 ==> p[i] == q[i];
      assert p[0] == q[0] && p[1] == q[1] && p[2] == q[2] && p[3] == q[3];
      assert p[4] == q[4] && p[5] == q[5] && p[6] == q[6] && p[7] == q[7];
    }
  }

  /** Identity keys hash the same bytes exactly for the same three identifiers, and never those of a fingerprint. */
  lemma IdentityTellsApart(f: Traits, g: Traits)
    requires Frameable(IdentityParts(f)) && Frameable(IdentityParts(g)) && Frameable(FingerprintParts(g))
    ensures Framed(IdentityParts(f)) == Framed(IdentityParts(g)) <==>
            f.email == g.email && f.username == g.username && f.phone == g.phone
    ensures Framed(IdentityParts(f)) != Framed(FingerprintParts(g))
  {
    var p, q := IdentityParts(f), IdentityParts(g);
    if Framed(p) == Framed(q) {
      FramedIsInjective(p, q);
      assert p[0] == q[0] && p[1] == q[1] && p[2] == q[2];
    }
    if Framed(p) == Framed(FingerprintParts(g)) {
      FramedIsInjective(p, FingerprintParts(g));
    }
  }
}
