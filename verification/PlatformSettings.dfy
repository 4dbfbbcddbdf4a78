/** The encrypted settings as a map: writing replaces supplied values and keeps the rest, whatever the nonces. */
module PlatformSettings {
  import opened AsciiText
  import opened Wrappers
  import opened Aead

  const SCHEMA_VERSION := 1

  datatype Cell = Cell(ciphertext: Bytes, nonce: Bytes, version: nat)

  datatype Reading = Absent | Undecryptable | Plain(text: Bytes)

  type Values = seq<(Bytes, Option<Bytes>)>

  /** A missing value, or a blank one for a secret, leaves the stored value alone. */
  predicate Replaces(secrets: set<Bytes>, item: (Bytes, Option<Bytes>)) {
    item.1.Some? && !(item.0 in secrets && item.1.value == [])
  }

  /** The value a write leaves for a key, if it writes one. */
  function Written(secrets: set<Bytes>, values: Values, key: Bytes): Option<Bytes> {
    if values == [] then None
    else
      var last := values[|values| - 1];
      if last.0 == key && Replaces(secrets, last) then last.1 else Written(secrets, values[..|values| - 1], key)
  }

  function Read(c: Cipher, root: Bytes, rows: map<Bytes, Cell>, key: Bytes): Reading {
    if key !in rows then Absent
    else
      var cell := rows[key];
      match c.dec(root, cell.nonce, cell.ciphertext, SettingAad(cell.version, key))
      case None => Undecryptable
      case Some(text) => Plain(text)
  }

  /** Reading after writing gives what was written; a key that was not written keeps its very bytes. */
  ghost predicate WritesThrough(c: Cipher, root: Bytes, secrets: set<Bytes>, values: Values, rows: map<Bytes, Cell>,
                                rows': map<Bytes, Cell>)
  {
    forall key :: WritesKey(c, root, secrets, values, rows, rows', key)
  }

  ghost predicate WritesKey(c: Cipher, root: Bytes, secrets: set<Bytes>, values: Values, rows: map<Bytes, Cell>,
                            rows': map<Bytes, Cell>, key: Bytes)
  {
    match Written(secrets, values, key)
    case Some(text) => Read(c, root, rows', key) == Plain(text)
    case None => (key in rows' <==> key in rows) && (key in rows ==> rows'[key] == rows[key])
  }

  lemma OneMoreWrite(c: Cipher, root: Bytes, secrets: set<Bytes>, values: Values, rows: map<Bytes, Cell>,
                     rows': map<Bytes, Cell>, key: Bytes, text: Bytes, nonce: Bytes)
    requires Lawful(c) && values != [] && values[|values| - 1] == (key, Some(text))
    requires Replaces(secrets, values[|values| - 1])
    requires WritesThrough(c, root, secrets, values[..|values| - 1], rows, rows')
    ensures var cell := Cell(c.enc(root, nonce, text, SettingAad(SCHEMA_VERSION, key)), nonce, SCHEMA_VERSION);
            WritesThrough(c, root, secrets, values, rows, rows'[key := cell])
  {
    hide SettingAad;
    var aad := SettingAad(SCHEMA_VERSION, key);
    assert Seals(c, root, nonce, text, aad);
    var cell := Cell(c.enc(root, nonce, text, aad), nonce, SCHEMA_VERSION);
    var more := rows'[key := cell];
    forall k
      ensures WritesKey(c, root, secrets, values, rows, more, k)
    {
      assert WritesKey(c, root, secrets, values[..|values| - 1], rows, rows', k);
    }
  }

  lemma OneMoreSkip(c: Cipher, root: Bytes, secrets: set<Bytes>, values: Values, rows: map<Bytes, Cell>,
                    rows': map<Bytes, Cell>)
    requires values != [] && !Replaces(secrets, values[|values| - 1])
    requires WritesThrough(c, root, secrets, values[..|values| - 1], rows, rows')
    ensures WritesThrough(c, root, secrets, values, rows, rows')
  {
    forall k
      ensures WritesKey(c, root, secrets, values, rows, rows', k)
    {
      assert WritesKey(c, root, secrets, values[..|values| - 1], rows, rows', k);
    }
  }

  /** The item gives the key a new value: any text, but for a secret a blank one does not count. */
  predicate Supplies(secrets: set<Bytes>, item: (Bytes, Option<Bytes>), key: Bytes) {
    item.0 == key && item.1.Some? && (item.1.value != [] || key !in secrets)
  }

  /** Item `i` is the last to supply a value for the key. */
  predicate SuppliesLast(secrets: set<Bytes>, values: Values, i: nat, key: Bytes)
    requires i < |values|
  {
    Supplies(secrets, values[i], key) && forall j :: i < j < |values| ==> !Supplies(secrets, values[j], key)
  }

  lemma {:induction false} WrittenIsTheLast(secrets: set<Bytes>, values: Values, i: nat, key: Bytes)
    requires i < |values| && SuppliesLast(secrets, values, i, key)
    ensures Written(secrets, values, key) == values[i].1 && values[i].1.Some?
  {
    var n := |values| - 1;
    if i < n {
      assert !Supplies(secrets, values[n], key);
      assert SuppliesLast(secrets, values[..n], i, key);
      WrittenIsTheLast(secrets, values[..n], i, key);
    }
  }

  lemma {:induction false} NothingSupplied(secrets: set<Bytes>, values: Values, key: Bytes)
    requires forall i :: 0 <= i < |values| ==> !Supplies(secrets, values[i], key)
    ensures Written(secrets, values, key) == None
  {
    if values != [] {
      assert !Supplies(secrets, values[|values| - 1], key);
      NothingSupplied(secrets, values[..|values| - 1], key);
    }
  }

  /**
   After a write a key reads as the last value supplied for it, whatever was stored before; a key for which none was
   supplied keeps its very bytes, or stays absent.
   */
  lemma LastSuppliedValueIsRead(c: Cipher, root: Bytes, secrets: set<Bytes>, values: Values, rows: map<Bytes, Cell>,
                                rows': map<Bytes, Cell>, key: Bytes)
    requires WritesThrough(c, root, secrets, values, rows, rows')
    ensures forall i :: 0 <= i < |values| && SuppliesLast(secrets, values, i, key) ==>
              values[i].1.Some? && Read(c, root, rows', key) == Plain(values[i].1.value)
    ensures (forall i :: 0 <= i < |values| ==> !Supplies(secrets, values[i], key)) ==>
              (key in rows' <==> key in rows) && (key in rows ==> rows'[key] == rows[key])
  {
    assert WritesKey(c, root, secrets, values, rows, rows', key);
    hide Read, Supplies;
    forall i | 0 <= i < |values| && SuppliesLast(secrets, values, i, key)
      ensures values[i].1.Some? && Read(c, root, rows', key) == Plain(values[i].1.value)
    {
      WrittenIsTheLast(secrets, values, i, key);
    }
    if forall i :: 0 <= i < |values| ==> !Supplies(secrets, values[i], key) {
      NothingSupplied(secrets, values, key);
    }
  }

  /** A blank secret is kept, a blank value that is not secret is stored. */
  lemma BlankSecretsAreKept(c: Cipher, root: Bytes, secrets: set<Bytes>, key: Bytes, rows: map<Bytes, Cell>,
                            rows': map<Bytes, Cell>)
    requires WritesThrough(c, root, secrets, [(key, Some([]))], rows, rows')
    ensures key in secrets ==> Read(c, root, rows', key) == Read(c, root, rows, key)
    ensures key !in secrets ==> Read(c, root, rows', key) == Plain([])
  {
    assert WritesKey(c, root, secrets, [(key, Some([]))], rows, rows', key);
    assert Written(secrets, [], key) == None;
  }

  class SettingsStore {
    const cipher: Cipher
    const root: Bytes
    const secrets: set<Bytes>
    var rows: map<Bytes, Cell>

    constructor (cipher: Cipher, root: Bytes, secrets: set<Bytes>)
      ensures this.cipher == cipher && this.root == root && this.secrets == secrets && rows == map[]
    {
      this.cipher, this.root, this.secrets, rows := cipher, root, secrets, map[];
    }

    method WriteMany(values: Values, nonces: seq<Bytes>)
      requires Lawful(cipher) && |nonces| == |values|
      modifies this
      ensures WritesThrough(cipher, root, secrets, values, old(rows), rows)
    {
      hide SettingAad, WritesThrough, Written;
      NothingWritten(cipher, root, secrets, rows);
      for i := 0 to |values|
        invariant WritesThrough(cipher, root, secrets, values[..i], old(rows), rows)
      {
        assert values[..i + 1][..i] == values[..i];
        var (key, value) := values[i];
        if value.None? || (key in secrets && value.value == []) {
          OneMoreSkip(cipher, root, secrets, values[..i + 1], old(rows), rows);
          continue;
        }
        OneMoreWrite(cipher, root, secrets, values[..i + 1], old(rows), rows, key, value.value, nonces[i]);
        var ciphertext := cipher.enc(root, nonces[i], value.value, SettingAad(SCHEMA_VERSION, key));
        rows := rows[key := Cell(ciphertext, nonces[i], SCHEMA_VERSION)];
      }
      assert values[..|values|] == values;
    }
  }

  lemma NothingWritten(c: Cipher, root: Bytes, secrets: set<Bytes>, rows: map<Bytes, Cell>)
    ensures WritesThrough(c, root, secrets, [], rows, rows)
  {
  }
}
