/**
 Authenticated encryption as a pair of functions with the usual laws, and the three stores' associated data, which
 binds every ciphertext to its row.
 */
module Aead {
  import opened Wrappers
  import opened AsciiText
  import FlatJson

  /** Both take the key, the nonce, the text and the associated data; `dec` has none when authentication fails. */
  datatype Cipher = Cipher(enc: (Bytes, Bytes, Bytes, Bytes) -> Bytes,
                           dec: (Bytes, Bytes, Bytes, Bytes) -> Option<Bytes>)

  const TAG_BYTES := 16

  /** Decryption gives back what was encrypted, accepts nothing else, and the tag is 16 bytes. */
  ghost predicate Lawful(c: Cipher) {
    && (forall key, nonce, text, aad :: Seals(c, key, nonce, text, aad))
    && (forall key, nonce, sealed, aad :: Unseals(c, key, nonce, sealed, aad))
  }

  ghost predicate Seals(c: Cipher, key: Bytes, nonce: Bytes, text: Bytes, aad: Bytes) {
    var sealed := c.enc(key, nonce, text, aad);
    c.dec(key, nonce, sealed, aad) == Some(text) && |sealed| == |text| + TAG_BYTES
  }

  ghost predicate Unseals(c: Cipher, key: Bytes, nonce: Bytes, sealed: Bytes, aad: Bytes) {
    c.dec(key, nonce, sealed, aad).Some? ==> c.enc(key, nonce, c.dec(key, nonce, sealed, aad).value, aad) == sealed
  }

  // ---------- Associated data ----------

  function FindingPrefix(): Bytes {
    AsBytes("leakcheck/finding-password/v1") + [0]
  }

  function FindingAad(id: Bytes): Bytes {
    FindingPrefix() + id
  }

  function TotpPrefix(): Bytes {
    AsBytes("leakcheck/admin-totp/v1/")
  }

  function TotpAad(user: Bytes): Bytes {
    TotpPrefix() + user
  }

  function SettingPrefix(): Bytes {
    AsBytes("leakcheck/platform-setting/")
  }

  function VersionText(version: nat): Bytes {
    DigitsAreAscii(version);
    AsBytes(FlatJson.Digits(version))
  }

  const SLASH: Byte := 47

  function SettingAad(version: nat, key: Bytes): Bytes {
    SettingPrefix() + (VersionText(version) + ([SLASH] + key))
  }

  lemma {:induction false} DigitsAreInjective(m: nat, n: nat)
    requires FlatJson.Digits(m) == FlatJson.Digits(n)
    ensures m == n
  {
    FlatJson.DigitsRead(m, "");
    FlatJson.DigitsRead(n, "");
  }

  lemma VersionsDiffer(m: nat, n: nat)
    requires VersionText(m) == VersionText(n)
    ensures m == n
  {
    DigitsAreAscii(m);
    DigitsAreAscii(n);
    TextOfBytes(FlatJson.Digits(m));
    TextOfBytes(FlatJson.Digits(n));
    DigitsAreInjective(m, n);
  }

  lemma VersionHasNoSlash(n: nat)
    ensures SLASH !in VersionText(n)
  {
    DigitsAreAscii(n);
  }

  lemma SplitAtSlash(a: Bytes, x: Bytes, b: Bytes, y: Bytes)
    requires SLASH !in a && SLASH !in b && a + ([SLASH] + x) == b + ([SLASH] + y)
    ensures a == b && x == y
  {
    FirstSlash(a, x);
    FirstSlash(b, y);
    var s, t := a + ([SLASH] + x), b + ([SLASH] + y);
    assert |a| == |b|;
    assert s[..|a|] == a && t[..|b|] == b;
    assert s[|a| + 1..] == x && t[|b| + 1..] == y;
  }

  lemma FirstSlash(a: Bytes, x: Bytes)
    requires SLASH !in a
    ensures var s := a + ([SLASH] + x); s[|a|] == SLASH && forall k :: 0 <= k < |a| ==> s[k] != SLASH
  {
  }

  lemma DropPrefix(p: Bytes, x: Bytes, y: Bytes)
    requires p + x == p + y
    ensures x == y
  {
    assert (p + x)[|p|..] == x && (p + y)[|p|..] == y;
  }

  /** The tenth byte tells the stores apart. */
  lemma PrefixesDiffer()
    ensures |FindingPrefix()| > 10 && |TotpPrefix()| > 10 && |SettingPrefix()| > 10
    ensures FindingPrefix()[10] == 'f' as int && TotpPrefix()[10] == 'a' as int && SettingPrefix()[10] == 'p' as int
  {
  }

  /** No two rows share associated data, within a store or across stores: a ciphertext opens only in its own row. */
  lemma AadsAreDistinct(id: Bytes, id': Bytes, version: nat, version': nat, key: Bytes, key': Bytes)
    ensures FindingAad(id) == FindingAad(id') <==> id == id'
    ensures TotpAad(id) == TotpAad(id') <==> id == id'
    ensures SettingAad(version, key) == SettingAad(version', key') <==> version == version' && key == key'
    ensures FindingAad(id) != TotpAad(id') && FindingAad(id) != SettingAad(version, key) &&
            TotpAad(id) != SettingAad(version, key)
  {
    PrefixesDiffer();
    hide FindingPrefix, TotpPrefix, SettingPrefix;
    var v, v' := VersionText(version), VersionText(version');
    VersionHasNoSlash(version);
    VersionHasNoSlash(version');
    if FindingAad(id) == FindingAad(id') {
      DropPrefix(FindingPrefix(), id, id');
    }
    if TotpAad(id) == TotpAad(id') {
      DropPrefix(TotpPrefix(), id, id');
    }
    if SettingAad(version, key) == SettingAad(version', key') {
      DropPrefix(SettingPrefix(), v + ([SLASH] + key), v' + ([SLASH] + key'));
      SplitAtSlash(v, key, v', key');
      VersionsDiffer(version, version');
    }
    hide VersionText;
    assert FindingAad(id)[10] == 'f' as int && TotpAad(id)[10] == 'a' as int && TotpAad(id')[10] == 'a' as int;
    assert SettingAad(version, key)[10] == 'p' as int;
  }
}
