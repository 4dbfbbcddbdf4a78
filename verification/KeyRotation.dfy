/**
 Rotation of the root data key across the three encrypted stores, in one transaction that is rolled back when a row
 fails, a setting's name is not known, or the run is a dry run.
 */
module KeyRotation {
  import opened AsciiText
  import opened Wrappers
  import opened Aead
  import opened DataKeys

  const NONCE_BYTES := 12

  datatype FindingRow = FindingRow(id: Bytes, ciphertext: Option<Bytes>, nonce: Option<Bytes>)

  datatype SettingRow = SettingRow(key: Bytes, version: nat, ciphertext: Bytes, nonce: Bytes)

  datatype CredentialRow = CredentialRow(user: Bytes, secret: Option<Bytes>)

  datatype Store = Store(findings: seq<FindingRow>, settings: seq<SettingRow>, credentials: seq<CredentialRow>)

  datatype Failure = FindingLost(id: Bytes) | SettingLost(key: Bytes) | CredentialLost(user: Bytes)

  datatype Report = Report(findings: nat, settings: nat, secrets: nat, failures: seq<Failure>)

  // ---------- What the application reads ----------

  function ReadFinding(c: Cipher, key: Bytes, row: FindingRow): Option<Bytes> {
    if row.ciphertext.None? || row.nonce.None? || |row.nonce.value| != NONCE_BYTES then None
    else c.dec(key, row.nonce.value, row.ciphertext.value, FindingAad(row.id))
  }

  function ReadSetting(c: Cipher, key: Bytes, row: SettingRow): Option<Bytes> {
    c.dec(key, row.nonce, row.ciphertext, SettingAad(row.version, row.key))
  }

  function ReadCredential(c: Cipher, key: Bytes, row: CredentialRow): Option<Bytes> {
    if row.secret.None? || |row.secret.value| <= NONCE_BYTES then None
    else c.dec(key, row.secret.value[..NONCE_BYTES], row.secret.value[NONCE_BYTES..], TotpAad(row.user))
  }

  // ---------- One row ----------

  datatype Fate = Skipped | Rotated | Lost

  datatype Keys = Keys(cipher: Cipher, before: Bytes, after: Bytes)

  function Recrypt(k: Keys, nonce: Bytes, ciphertext: Bytes, aad: Bytes): Option<Bytes> {
    match k.cipher.dec(k.before, nonce, ciphertext, aad)
    case None => None
    case Some(text) => Some(k.cipher.enc(k.after, nonce, text, aad))
  }

  function FindingStep(k: Keys, row: FindingRow): (FindingRow, Fate) {
    if row.ciphertext.None? || row.nonce.None? then (row, Skipped)
    else match Recrypt(k, row.nonce.value, row.ciphertext.value, FindingAad(row.id))
      case None => (row, Lost)
      case Some(c) => (row.(ciphertext := Some(c)), Rotated)
  }

  function SettingStep(k: Keys, row: SettingRow): (SettingRow, Fate) {
    match Recrypt(k, row.nonce, row.ciphertext, SettingAad(row.version, row.key))
    case None => (row, Lost)
    case Some(c) => (row.(ciphertext := c), Rotated)
  }

  function CredentialStep(k: Keys, row: CredentialRow): (CredentialRow, Fate) {
    if row.secret.None? || |row.secret.value| <= NONCE_BYTES then (row, Skipped)
    else
      var nonce, ciphertext := row.secret.value[..NONCE_BYTES], row.secret.value[NONCE_BYTES..];
      match Recrypt(k, nonce, ciphertext, TotpAad(row.user))
      case None => (row, Lost)
      case Some(c) => (row.(secret := Some(nonce + c)), Rotated)
  }

  /** A row that is not lost reads the same under the new key, and rotating it back restores its bytes. */
  lemma FindingSurvives(k: Keys, row: FindingRow)
    requires Lawful(k.cipher)
    ensures var (row', fate) := FindingStep(k, row);
            && (fate.Lost? ==> row' == row && ReadFinding(k.cipher, k.before, row) == None)
            && (!fate.Lost? ==> ReadFinding(k.cipher, k.after, row') == ReadFinding(k.cipher, k.before, row))
            && (!fate.Lost? ==> FindingStep(Back(k), row') == (row, fate))
  {
    hide FindingAad;
    if row.ciphertext.Some? && row.nonce.Some? {
      RecryptLaws(k, row.nonce.value, row.ciphertext.value, FindingAad(row.id));
    }
  }

  lemma SettingSurvives(k: Keys, row: SettingRow)
    requires Lawful(k.cipher)
    ensures var (row', fate) := SettingStep(k, row);
            && (fate.Lost? <==> ReadSetting(k.cipher, k.before, row) == None) && !fate.Skipped?
            && (fate.Lost? ==> row' == row)
            && (!fate.Lost? ==> ReadSetting(k.cipher, k.after, row') == ReadSetting(k.cipher, k.before, row))
            && (!fate.Lost? ==> SettingStep(Back(k), row') == (row, fate))
  {
    hide SettingAad;
    RecryptLaws(k, row.nonce, row.ciphertext, SettingAad(row.version, row.key));
  }

  lemma CredentialSurvives(k: Keys, row: CredentialRow)
    requires Lawful(k.cipher)
    ensures var (row', fate) := CredentialStep(k, row);
            && (fate.Lost? ==> row' == row && ReadCredential(k.cipher, k.before, row) == None)
            && (!fate.Lost? ==> ReadCredential(k.cipher, k.after, row') == ReadCredential(k.cipher, k.before, row))
            && (!fate.Lost? ==> CredentialStep(Back(k), row') == (row, fate))
  {
    hide TotpAad;
    if row.secret.Some? && |row.secret.value| > NONCE_BYTES {
      var nonce, ciphertext := row.secret.value[..NONCE_BYTES], row.secret.value[NONCE_BYTES..];
      RecryptLaws(k, nonce, ciphertext, TotpAad(row.user));
      assert row.secret.value == nonce + ciphertext;
      var step := Recrypt(k, nonce, ciphertext, TotpAad(row.user));
      if step.Some? {
        assert (nonce + step.value)[..NONCE_BYTES] == nonce && (nonce + step.value)[NONCE_BYTES..] == step.value;
      }
    }
  }

  function Back(k: Keys): Keys {
    Keys(k.cipher, k.after, k.before)
  }

  lemma RecryptLaws(k: Keys, nonce: Bytes, ciphertext: Bytes, aad: Bytes)
    requires Lawful(k.cipher)
    ensures var r := Recrypt(k, nonce, ciphertext, aad);
            && (r.None? <==> k.cipher.dec(k.before, nonce, ciphertext, aad).None?)
            && (r.Some? ==>
                  k.cipher.dec(k.after, nonce, r.value, aad) == k.cipher.dec(k.before, nonce, ciphertext, aad))
            && (r.Some? ==> Recrypt(Back(k), nonce, r.value, aad) == Some(ciphertext) && |r.value| > 0)
  {
    assert Unseals(k.cipher, k.before, nonce, ciphertext, aad);
    var text := k.cipher.dec(k.before, nonce, ciphertext, aad);
    if text.Some? {
      assert Seals(k.cipher, k.after, nonce, text.value, aad);
    }
  }

  // ---------- All rows ----------

  /** Every setting has one of the names the program knows; any other name is an error that ends the rotation. */
  predicate AllKnown(rows: seq<SettingRow>, known: set<Bytes>) {
    forall i :: 0 <= i < |rows| ==> rows[i].key in known
  }

  predicate FindingsRotated(k: Keys, rows: seq<FindingRow>, rows': seq<FindingRow>) {
    |rows'| == |rows| && forall i :: 0 <= i < |rows| ==> rows'[i] == FindingStep(k, rows[i]).0
  }

  predicate SettingsRotated(k: Keys, rows: seq<SettingRow>, rows': seq<SettingRow>) {
    |rows'| == |rows| && forall i :: 0 <= i < |rows| ==> rows'[i] == SettingStep(k, rows[i]).0
  }

  predicate CredentialsRotated(k: Keys, rows: seq<CredentialRow>, rows': seq<CredentialRow>) {
    |rows'| == |rows| && forall i :: 0 <= i < |rows| ==> rows'[i] == CredentialStep(k, rows[i]).0
  }

  predicate RotatedStore(k: Keys, s: Store, s': Store) {
    && FindingsRotated(k, s.findings, s'.findings) && SettingsRotated(k, s.settings, s'.settings)
    && CredentialsRotated(k, s.credentials, s'.credentials)
  }

  /** What became of each row. */
  function FindingFates(k: Keys, rows: seq<FindingRow>): seq<Fate> {
    if rows == [] then [] else FindingFates(k, rows[..|rows| - 1]) + [FindingStep(k, rows[|rows| - 1]).1]
  }

  function SettingFates(k: Keys, rows: seq<SettingRow>): seq<Fate> {
    if rows == [] then [] else SettingFates(k, rows[..|rows| - 1]) + [SettingStep(k, rows[|rows| - 1]).1]
  }

  function CredentialFates(k: Keys, rows: seq<CredentialRow>): seq<Fate> {
    if rows == [] then [] else CredentialFates(k, rows[..|rows| - 1]) + [CredentialStep(k, rows[|rows| - 1]).1]
  }

  function Tally(fates: seq<Fate>, fate: Fate): nat {
    if fates == [] then 0 else Tally(fates[..|fates| - 1], fate) + if fates[|fates| - 1] == fate then 1 else 0
  }

  /** The names of the lost rows, in order. */
  function LostFindings(k: Keys, rows: seq<FindingRow>): seq<Failure> {
    if rows == [] then []
    else
      var last := rows[|rows| - 1];
      LostFindings(k, rows[..|rows| - 1]) + if FindingStep(k, last).1.Lost? then [FindingLost(last.id)] else []
  }

  function LostSettings(k: Keys, rows: seq<SettingRow>): seq<Failure> {
    if rows == [] then []
    else
      var last := rows[|rows| - 1];
      LostSettings(k, rows[..|rows| - 1]) + if SettingStep(k, last).1.Lost? then [SettingLost(last.key)] else []
  }

  function LostCredentials(k: Keys, rows: seq<CredentialRow>): seq<Failure> {
    if rows == [] then []
    else
      var last := rows[|rows| - 1];
      LostCredentials(k, rows[..|rows| - 1]) + if CredentialStep(k, last).1.Lost? then [CredentialLost(last.user)]
        else []
  }

  function ReportOf(k: Keys, s: Store): Report {
    Report(Tally(FindingFates(k, s.findings), Rotated), Tally(SettingFates(k, s.settings), Rotated),
           Tally(CredentialFates(k, s.credentials), Rotated),
           LostFindings(k, s.findings) + LostSettings(k, s.settings) + LostCredentials(k, s.credentials))
  }

  predicate NothingLost(k: Keys, s: Store) {
    && (forall i :: 0 <= i < |s.findings| ==> !FindingStep(k, s.findings[i]).1.Lost?)
    && (forall i :: 0 <= i < |s.settings| ==> !SettingStep(k, s.settings[i]).1.Lost?)
    && (forall i :: 0 <= i < |s.credentials| ==> !CredentialStep(k, s.credentials[i]).1.Lost?)
  }

  /** Both stores have the same rows, and each reads the same under its own key. */
  predicate SamePlaintexts(c: Cipher, s: Store, key: Bytes, s': Store, key': Bytes) {
    && |s'.findings| == |s.findings| && |s'.settings| == |s.settings| && |s'.credentials| == |s.credentials|
    && (forall i :: 0 <= i < |s.findings| ==>
          s'.findings[i].id == s.findings[i].id &&
            ReadFinding(c, key', s'.findings[i]) == ReadFinding(c, key, s.findings[i]))
    && (forall i :: 0 <= i < |s.settings| ==>
          s'.settings[i].key == s.settings[i].key &&
            ReadSetting(c, key', s'.settings[i]) == ReadSetting(c, key, s.settings[i]))
    && (forall i :: 0 <= i < |s.credentials| ==>
          && s'.credentials[i].user == s.credentials[i].user
          && ReadCredential(c, key', s'.credentials[i]) == ReadCredential(c, key, s.credentials[i]))
  }

  lemma {:induction false} FindingFailures(k: Keys, rows: seq<FindingRow>)
    ensures |LostFindings(k, rows)| == Tally(FindingFates(k, rows), Lost) && |FindingFates(k, rows)| == |rows|
    ensures LostFindings(k, rows) == [] <==> forall i :: 0 <= i < |rows| ==> !FindingStep(k, rows[i]).1.Lost?
  {
    hide FindingStep;
    if rows != [] {
      FindingFailures(k, rows[..|rows| - 1]);
    }
  }

  lemma {:induction false} SettingFailures(k: Keys, rows: seq<SettingRow>)
    ensures |LostSettings(k, rows)| == Tally(SettingFates(k, rows), Lost) && |SettingFates(k, rows)| == |rows|
    ensures LostSettings(k, rows) == [] <==> forall i :: 0 <= i < |rows| ==> !SettingStep(k, rows[i]).1.Lost?
  {
    hide SettingStep;
    if rows != [] {
      SettingFailures(k, rows[..|rows| - 1]);
    }
  }

  lemma {:induction false} CredentialFailures(k: Keys, rows: seq<CredentialRow>)
    ensures |LostCredentials(k, rows)| == Tally(CredentialFates(k, rows), Lost) && |CredentialFates(k, rows)| == |rows|
    ensures LostCredentials(k, rows) == [] <==> forall i :: 0 <= i < |rows| ==> !CredentialStep(k, rows[i]).1.Lost?
  {
    hide CredentialStep;
    if rows != [] {
      CredentialFailures(k, rows[..|rows| - 1]);
    }
  }

  lemma {:induction false} FatesPartition(fates: seq<Fate>)
    ensures Tally(fates, Rotated) + Tally(fates, Lost) + Tally(fates, Skipped) == |fates|
  {
    if fates != [] {
      FatesPartition(fates[..|fates| - 1]);
    }
  }

  /** Successes and failures make up the eligible rows, and there is no failure exactly when no row is lost. */
  lemma ReportIsComplete(k: Keys, s: Store)
    ensures var r := ReportOf(k, s);
            && r.findings + r.settings + r.secrets + |r.failures| ==
               |s.findings| - Tally(FindingFates(k, s.findings), Skipped) +
               |s.settings| - Tally(SettingFates(k, s.settings), Skipped) +
               |s.credentials| - Tally(CredentialFates(k, s.credentials), Skipped)
            && (r.failures == [] <==> NothingLost(k, s))
  {
    FindingFailures(k, s.findings);
    SettingFailures(k, s.settings);
    CredentialFailures(k, s.credentials);
    FatesPartition(FindingFates(k, s.findings));
    FatesPartition(SettingFates(k, s.settings));
    FatesPartition(CredentialFates(k, s.credentials));
    hide Tally, FindingFates, SettingFates, CredentialFates, FindingStep, SettingStep, CredentialStep;
    hide LostFindings, LostSettings, LostCredentials;
  }

  // ---------- The report, by what the cipher accepts ----------

  /** The stored ciphertext of the finding opens under the old key. */
  predicate FindingOpens(k: Keys, row: FindingRow) {
    && row.ciphertext.Some? && row.nonce.Some?
    && k.cipher.dec(k.before, row.nonce.value, row.ciphertext.value, FindingAad(row.id)).Some?
  }

  function OpenFindings(k: Keys, rows: seq<FindingRow>): set<nat> {
    set i | 0 <= i < |rows| && FindingOpens(k, rows[i])
  }

  function OpenSettings(k: Keys, rows: seq<SettingRow>): set<nat> {
    set i | 0 <= i < |rows| && ReadSetting(k.cipher, k.before, rows[i]).Some?
  }

  function OpenCredentials(k: Keys, rows: seq<CredentialRow>): set<nat> {
    set i | 0 <= i < |rows| && ReadCredential(k.cipher, k.before, rows[i]).Some?
  }

  lemma OneMoreRow(n: nat, before: set<nat>, all: set<nat>, last: bool)
    requires n !in before && forall i :: i in all <==> i in before || (i == n && last)
    ensures |all| == |before| + if last then 1 else 0
  {
    assert all == before + if last then {n} else {};
  }

  lemma SettingRotates(k: Keys, row: SettingRow)
    ensures SettingStep(k, row).1.Rotated? <==> ReadSetting(k.cipher, k.before, row).Some?
  {
    hide SettingAad;
  }

  lemma CredentialRotates(k: Keys, row: CredentialRow)
    ensures CredentialStep(k, row).1.Rotated? <==> ReadCredential(k.cipher, k.before, row).Some?
  {
    hide TotpAad;
  }

  lemma {:induction false} RotatedFindings(k: Keys, rows: seq<FindingRow>)
    ensures Tally(FindingFates(k, rows), Rotated) == |OpenFindings(k, rows)|
  {
    if rows != [] {
      var n := |rows| - 1;
      RotatedFindings(k, rows[..n]);
      assert FindingStep(k, rows[n]).1.Rotated? <==> FindingOpens(k, rows[n]);
      hide FindingStep, FindingOpens;
      OneMoreRow(n, OpenFindings(k, rows[..n]), OpenFindings(k, rows), FindingOpens(k, rows[n]));
    }
  }

  lemma {:induction false} RotatedSettings(k: Keys, rows: seq<SettingRow>)
    ensures Tally(SettingFates(k, rows), Rotated) == |OpenSettings(k, rows)|
  {
    if rows != [] {
      var n := |rows| - 1;
      RotatedSettings(k, rows[..n]);
      SettingRotates(k, rows[n]);
      hide SettingStep, ReadSetting;
      OneMoreRow(n, OpenSettings(k, rows[..n]), OpenSettings(k, rows),
                 ReadSetting(k.cipher, k.before, rows[n]).Some?);
    }
  }

  lemma {:induction false} RotatedCredentials(k: Keys, rows: seq<CredentialRow>)
    ensures Tally(CredentialFates(k, rows), Rotated) == |OpenCredentials(k, rows)|
  {
    if rows != [] {
      var n := |rows| - 1;
      RotatedCredentials(k, rows[..n]);
      CredentialRotates(k, rows[n]);
      hide CredentialStep, ReadCredential;
      OneMoreRow(n, OpenCredentials(k, rows[..n]), OpenCredentials(k, rows),
                 ReadCredential(k.cipher, k.before, rows[n]).Some?);
    }
  }

  /** Each count of the report is the number of rows of its store that open under the old key. */
  lemma ReportCountsWhatOpens(k: Keys, s: Store)
    ensures var r := ReportOf(k, s);
            && r.findings == |OpenFindings(k, s.findings)| && r.settings == |OpenSettings(k, s.settings)|
            && r.secrets == |OpenCredentials(k, s.credentials)|
  {
    RotatedFindings(k, s.findings);
    RotatedSettings(k, s.settings);
    RotatedCredentials(k, s.credentials);
  }

  lemma {:induction false} LostFindingsAreNamed(k: Keys, rows: seq<FindingRow>, f: Failure)
    ensures f in LostFindings(k, rows) <==>
            exists i :: 0 <= i < |rows| && f == FindingLost(rows[i].id) && rows[i].ciphertext.Some? &&
                        rows[i].nonce.Some? && !FindingOpens(k, rows[i])
  {
    if rows != [] {
      LostFindingsAreNamed(k, rows[..|rows| - 1], f);
    }
  }

  lemma {:induction false} LostSettingsAreNamed(k: Keys, rows: seq<SettingRow>, f: Failure)
    ensures f in LostSettings(k, rows) <==>
            exists i :: 0 <= i < |rows| && f == SettingLost(rows[i].key) &&
                        ReadSetting(k.cipher, k.before, rows[i]).None?
  {
    if rows != [] {
      LostSettingsAreNamed(k, rows[..|rows| - 1], f);
    }
  }

  lemma {:induction false} LostCredentialsAreNamed(k: Keys, rows: seq<CredentialRow>, f: Failure)
    ensures f in LostCredentials(k, rows) <==>
            exists i :: 0 <= i < |rows| && f == CredentialLost(rows[i].user) && rows[i].secret.Some? &&
                        |rows[i].secret.value| > 12 && ReadCredential(k.cipher, k.before, rows[i]).None?
  {
    if rows != [] {
      LostCredentialsAreNamed(k, rows[..|rows| - 1], f);
    }
  }

  /** The failures name exactly the rows that hold a ciphertext which does not open under the old key. */
  lemma FailuresNameTheLost(k: Keys, s: Store, f: Failure)
    ensures f in ReportOf(k, s).failures <==>
            || (exists i :: 0 <= i < |s.findings| && f == FindingLost(s.findings[i].id) &&
                            s.findings[i].ciphertext.Some? && s.findings[i].nonce.Some? &&
                            !FindingOpens(k, s.findings[i]))
            || (exists i :: 0 <= i < |s.settings| && f == SettingLost(s.settings[i].key) &&
                            ReadSetting(k.cipher, k.before, s.settings[i]).None?)
            || (exists i :: 0 <= i < |s.credentials| && f == CredentialLost(s.credentials[i].user) &&
                            s.credentials[i].secret.Some? && |s.credentials[i].secret.value| > 12 &&
                            ReadCredential(k.cipher, k.before, s.credentials[i]).None?)
  {
    LostFindingsAreNamed(k, s.findings, f);
    LostSettingsAreNamed(k, s.settings, f);
    LostCredentialsAreNamed(k, s.credentials, f);
    hide LostFindings, LostSettings, LostCredentials, Tally, FindingFates, SettingFates, CredentialFates;
    hide FindingOpens, ReadSetting, ReadCredential;
  }

  /** If no row fails, every row reads under the new key as it did under the old one. */
  lemma PlaintextsArePreserved(k: Keys, s: Store, s': Store)
    requires Lawful(k.cipher) && NothingLost(k, s) && RotatedStore(k, s, s')
    ensures SamePlaintexts(k.cipher, s, k.before, s', k.after)
  {
    forall i | 0 <= i < |s.findings| {
      FindingSurvives(k, s.findings[i]);
    }
    forall i | 0 <= i < |s.settings| {
      SettingSurvives(k, s.settings[i]);
    }
    forall i | 0 <= i < |s.credentials| {
      CredentialSurvives(k, s.credentials[i]);
    }
    RowsKeepNames(k, s, s');
    hide FindingStep, SettingStep, CredentialStep, ReadFinding, ReadSetting, ReadCredential, Lawful;
  }

  lemma RowsKeepNames(k: Keys, s: Store, s': Store)
    requires RotatedStore(k, s, s')
    ensures forall i :: 0 <= i < |s.findings| ==> s'.findings[i].id == s.findings[i].id
    ensures forall i :: 0 <= i < |s.settings| ==> s'.settings[i].key == s.settings[i].key
    ensures forall i :: 0 <= i < |s.credentials| ==> s'.credentials[i].user == s.credentials[i].user
  {
    hide Recrypt;
  }

  /** Rotating back with the keys swapped loses nothing and restores the exact bytes. */
  lemma RotatingBackRestores(k: Keys, s: Store, s': Store, s'': Store)
    requires Lawful(k.cipher) && NothingLost(k, s) && RotatedStore(k, s, s') && RotatedStore(Back(k), s', s'')
    ensures s'' == s && NothingLost(Back(k), s')
  {
    forall i | 0 <= i < |s.findings| {
      FindingSurvives(k, s.findings[i]);
    }
    forall i | 0 <= i < |s.settings| {
      SettingSurvives(k, s.settings[i]);
    }
    forall i | 0 <= i < |s.credentials| {
      CredentialSurvives(k, s.credentials[i]);
    }
    hide FindingStep, SettingStep, CredentialStep, ReadFinding, ReadSetting, ReadCredential, Lawful, Back;
    assert s''.findings == s.findings;
    assert s''.settings == s.settings;
    assert s''.credentials == s.credentials;
  }

  lemma OneMoreFinding(k: Keys, rows: seq<FindingRow>, i: nat)
    requires i < |rows|
    ensures var fate := FindingStep(k, rows[i]).1;
            && Tally(FindingFates(k, rows[..i + 1]), Rotated) ==
                 Tally(FindingFates(k, rows[..i]), Rotated) + (if fate.Rotated? then 1 else 0)
            && LostFindings(k, rows[..i + 1]) ==
                 LostFindings(k, rows[..i]) + (if fate.Lost? then [FindingLost(rows[i].id)] else [])
  {
    hide FindingStep;
    assert rows[..i + 1][..i] == rows[..i];
    assert FindingFates(k, rows[..i + 1])[..|FindingFates(k, rows[..i])|] == FindingFates(k, rows[..i]);
  }

  lemma SettingStepIs(k: Keys, row: SettingRow)
    ensures var sealed := Recrypt(k, row.nonce, row.ciphertext, SettingAad(row.version, row.key));
            SettingStep(k, row) == if sealed.Some? then (row.(ciphertext := sealed.value), Rotated) else (row, Lost)
  {
    hide Recrypt, SettingAad;
  }

  lemma OneMoreSetting(k: Keys, rows: seq<SettingRow>, i: nat)
    requires i < |rows|
    ensures var fate := SettingStep(k, rows[i]).1;
            && Tally(SettingFates(k, rows[..i + 1]), Rotated) ==
                 Tally(SettingFates(k, rows[..i]), Rotated) + (if fate.Rotated? then 1 else 0)
            && LostSettings(k, rows[..i + 1]) ==
                 LostSettings(k, rows[..i]) + (if fate.Lost? then [SettingLost(rows[i].key)] else [])
  {
    hide SettingStep;
    assert rows[..i + 1][..i] == rows[..i];
    assert SettingFates(k, rows[..i + 1])[..|SettingFates(k, rows[..i])|] == SettingFates(k, rows[..i]);
  }

  lemma CredentialStepIs(k: Keys, row: CredentialRow)
    ensures CredentialStep(k, row) ==
            if row.secret.None? || |row.secret.value| <= NONCE_BYTES then (row, Skipped)
            else
              var nonce, ciphertext := row.secret.value[..NONCE_BYTES], row.secret.value[NONCE_BYTES..];
              var sealed := Recrypt(k, nonce, ciphertext, TotpAad(row.user));
              if sealed.Some? then (row.(secret := Some(nonce + sealed.value)), Rotated) else (row, Lost)
  {
    hide Recrypt, TotpAad;
  }

  lemma OneMoreCredential(k: Keys, rows: seq<CredentialRow>, i: nat)
    requires i < |rows|
    ensures var fate := CredentialStep(k, rows[i]).1;
            && Tally(CredentialFates(k, rows[..i + 1]), Rotated) ==
                 Tally(CredentialFates(k, rows[..i]), Rotated) + (if fate.Rotated? then 1 else 0)
            && LostCredentials(k, rows[..i + 1]) ==
                 LostCredentials(k, rows[..i]) + (if fate.Lost? then [CredentialLost(rows[i].user)] else [])
  {
    hide CredentialStep;
    assert rows[..i + 1][..i] == rows[..i];
    assert CredentialFates(k, rows[..i + 1])[..|CredentialFates(k, rows[..i])|] == CredentialFates(k, rows[..i]);
  }

  // ---------- The program ----------

  datatype Outcome = BadKey | SameKey | UnknownSetting | Finished(report: Report, committed: bool)

  class Database {
    var findings: seq<FindingRow>
    var settings: seq<SettingRow>
    var credentials: seq<CredentialRow>

    function Value(): Store
      reads this
    {
      Store(findings, settings, credentials)
    }

    constructor (s: Store)
      ensures Value() == s
    {
      findings, settings, credentials := s.findings, s.settings, s.credentials;
    }

    method RotateFindings(k: Keys) returns (rotated: nat, failures: seq<Failure>)
      modifies this`findings
      ensures FindingsRotated(k, old(findings), findings)
      ensures rotated == Tally(FindingFates(k, old(findings)), Rotated) && failures == LostFindings(k, old(findings))
    {
      hide Recrypt;
      var rows := findings;
      rotated, failures := 0, [];
      for i := 0 to |rows|
        invariant |findings| == |rows|
        invariant forall j :: 0 <= j < i ==> findings[j] == FindingStep(k, rows[j]).0
        invariant forall j :: i <= j < |rows| ==> findings[j] == rows[j]
        invariant rotated == Tally(FindingFates(k, rows[..i]), Rotated) && failures == LostFindings(k, rows[..i])
      {
        OneMoreFinding(k, rows, i);
        hide Tally, FindingFates, LostFindings;
        var row := rows[i];
        if row.ciphertext.None? || row.nonce.None? {
          continue;
        }
        var sealed := Recrypt(k, row.nonce.value, row.ciphertext.value, FindingAad(row.id));
        if sealed.Some? {
          findings := findings[i := row.(ciphertext := sealed)];
          rotated := rotated + 1;
        } else {
          failures := failures + [FindingLost(row.id)];
        }
      }
      assert rows[..|rows|] == rows;
    }

    method RotateSettings(k: Keys, known: set<Bytes>) returns (ok: bool, rotated: nat, failures: seq<Failure>)
      modifies this`settings
      ensures ok == AllKnown(old(settings), known)
      ensures ok ==> SettingsRotated(k, old(settings), settings)
      ensures ok ==>
                rotated == Tally(SettingFates(k, old(settings)), Rotated) && failures == LostSettings(k, old(settings))
    {
      hide Recrypt, SettingStep, SettingAad;
      var rows := settings;
      rotated, failures := 0, [];
      for i := 0 to |rows|
        invariant |settings| == |rows| && forall j :: 0 <= j < i ==> rows[j].key in known
        invariant forall j :: 0 <= j < i ==> settings[j] == SettingStep(k, rows[j]).0
        invariant forall j :: i <= j < |rows| ==> settings[j] == rows[j]
        invariant rotated == Tally(SettingFates(k, rows[..i]), Rotated) && failures == LostSettings(k, rows[..i])
      {
        OneMoreSetting(k, rows, i);
        hide Tally, SettingFates, LostSettings;
        var row := rows[i];
        if row.key !in known {
          return false, rotated, failures;
        }
        var sealed := Recrypt(k, row.nonce, row.ciphertext, SettingAad(row.version, row.key));
        SettingStepIs(k, row);
        if sealed.Some? {
          settings := settings[i := row.(ciphertext := sealed.value)];
          rotated := rotated + 1;
        } else {
          failures := failures + [SettingLost(row.key)];
        }
      }
      assert rows[..|rows|] == rows;
      ok := true;
    }

    method RotateCredentials(k: Keys) returns (rotated: nat, failures: seq<Failure>)
      modifies this`credentials
      ensures CredentialsRotated(k, old(credentials), credentials)
      ensures rotated == Tally(CredentialFates(k, old(credentials)), Rotated) &&
              failures == LostCredentials(k, old(credentials))
    {
      hide Recrypt, CredentialStep, TotpAad;
      var rows := credentials;
      rotated, failures := 0, [];
      for i := 0 to |rows|
        invariant |credentials| == |rows|
        invariant forall j :: 0 <= j < i ==> credentials[j] == CredentialStep(k, rows[j]).0
        invariant forall j :: i <= j < |rows| ==> credentials[j] == rows[j]
        invariant rotated == Tally(CredentialFates(k, rows[..i]), Rotated) && failures == LostCredentials(k, rows[..i])
      {
        OneMoreCredential(k, rows, i);
        hide Tally, CredentialFates, LostCredentials;
        var row := rows[i];
        CredentialStepIs(k, row);
        if row.secret.None? || |row.secret.value| <= NONCE_BYTES {
          continue;
        }
        var nonce, ciphertext := row.secret.value[..NONCE_BYTES], row.secret.value[NONCE_BYTES..];
        var sealed := Recrypt(k, nonce, ciphertext, TotpAad(row.user));
        if sealed.Some? {
          credentials := credentials[i := row.(secret := Some(nonce + sealed.value))];
          rotated := rotated + 1;
        } else {
          failures := failures + [CredentialLost(row.user)];
        }
      }
      assert rows[..|rows|] == rows;
    }

    /** All three stores; when a setting has an unknown name the rotation stops there with an error. */
    method Rotate(k: Keys, known: set<Bytes>) returns (report: Option<Report>)
      modifies this
      ensures report.Some? <==> AllKnown(old(settings), known)
      ensures report.Some? ==> RotatedStore(k, old(Value()), Value()) && report.value == ReportOf(k, old(Value()))
    {
      hide FindingsRotated, SettingsRotated, CredentialsRotated, Tally, FindingFates, SettingFates, CredentialFates;
      hide LostFindings, LostSettings, LostCredentials, AllKnown;
      var rotatedFindings, lostFindings := RotateFindings(k);
      var ok, rotatedSettings, lostSettings := RotateSettings(k, known);
      if !ok {
        return None;
      }
      var rotatedSecrets, lostSecrets := RotateCredentials(k);
      report := Some(Report(rotatedFindings, rotatedSettings, rotatedSecrets,
                            lostFindings + lostSettings + lostSecrets));
    }

    /** The rotation in its transaction: committed only when no row fails and it is not a dry run. */
    method Run(cipher: Cipher, currentKey: string, newKey: string, known: set<Bytes>, dryRun: bool)
      returns (outcome: Outcome)
      requires Lawful(cipher)
      modifies this
      ensures outcome.BadKey? <==> DecodeKey(currentKey).None? || DecodeKey(newKey).None?
      ensures outcome.SameKey? <==> DecodeKey(currentKey).Some? && DecodeKey(currentKey) == DecodeKey(newKey)
      ensures !outcome.BadKey? && !outcome.SameKey? ==> (outcome.UnknownSetting? <==> !AllKnown(old(settings), known))
      ensures outcome.Finished? ==>
                var k := Keys(cipher, DecodeKey(currentKey).value, DecodeKey(newKey).value);
                && outcome.report == ReportOf(k, old(Value()))
                && outcome.committed == (!dryRun && NothingLost(k, old(Value())))
                && (outcome.committed ==>
                    RotatedStore(k, old(Value()), Value()) &&
                      SamePlaintexts(cipher, old(Value()), k.before, Value(), k.after))
      ensures !(outcome.Finished? && outcome.committed) ==> Value() == old(Value())
    {
      var before, after := DecodeKey(currentKey), DecodeKey(newKey);
      if before.None? || after.None? {
        return BadKey;
      }
      if before == after {
        return SameKey;
      }
      hide RotatedStore, ReportOf, NothingLost, SamePlaintexts, AllKnown, DecodeKey;
      var findings0, settings0, credentials0 := findings, settings, credentials;
      var k := Keys(cipher, before.value, after.value);
      ReportIsComplete(k, Value());
      var report := Rotate(k, known);
      if report.None? || report.value.failures != [] || dryRun {
        findings, settings, credentials := findings0, settings0, credentials0;
        return if report.None? then UnknownSetting else Finished(report.value, false);
      }
      PlaintextsArePreserved(k, old(Value()), Value());
      outcome := Finished(report.value, true);
    }
  }
}
