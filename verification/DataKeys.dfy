/**
 The text of a data key: decoded leniently when the key is rotated, and strictly when the application starts. What a
 rotation accepts need not be what the restarted application accepts.
 */
module DataKeys {
  import opened AsciiText
  import opened Base64Url
  import opened Wrappers

  const KEY_BYTES := 32

  // ---------- Rotation ----------

  /** Decodes a base64url key; anything but 32 bytes is an error. */
  function DecodeKey(text: string): Option<Bytes> {
    match Decode(text)
    case None => None
    case Some(raw) => if |raw| != KEY_BYTES then None else Some(raw)
  }

  function GenerateKey(random: Bytes): string
    requires |random| == KEY_BYTES
  {
    Encode(random)
  }

  lemma GeneratedKeysDecode(random: Bytes)
    requires |random| == KEY_BYTES
    ensures DecodeKey(GenerateKey(random)) == Some(random) && |GenerateKey(random)| == 43
  {
    DecodeUndoesEncode(random);
    EncodedShape(random);
  }

  // ---------- Settings ----------

  /**
   The strict decoder: nothing outside the alphabets, no padding before its place, nothing after it. Releases of the
   library differ on padding at the start of a quad; no text of 32 bytes has any.
   */
  function ScanStrict(s: string, m: Scanner, padded: bool, out: Bytes): Option<Bytes>
    requires Ready(m)
  {
    if s == "" then (if m.quad == 0 then Some(out) else None)
    else if s[0] == PAD then
      if m.quad == 0 then None
      else if m.quad >= 2 && m.quad + m.pads + 1 >= 4 then (if |s| > 1 then None else Some(out))
      else ScanStrict(s[1..], if m.quad >= 2 then m.(pads := m.pads + 1) else m, true, out)
    else if padded || DigitOf(s[0]).None? then None
    else
      var (m', out') := Fed(s[0], m, out);
      ScanStrict(s[1..], m', false, out')
  }

  function DecodeStrict(text: string): Option<Bytes> {
    if !Ascii(text) then None else ScanStrict(text + Pads(MissingPads(|text|)), START, false, [])
  }

  const PREFIX := "replace-with-"

  function LowerCase(s: string): (r: string)
    ensures |r| == |s|
  {
    seq(|s|, i requires 0 <= i < |s| =>
      if 'A' <= s[i] <= 'Z' then (s[i] as int - 'A' as int + 'a' as int) as char else s[i])
  }

  /** Case folding is lower-casing on ASCII text; other text is refused anyway. */
  predicate IsPlaceholder(text: string) {
    || LowerCase(text) == "changeme" || LowerCase(text) == "change-me" || LowerCase(text) == "replace-me"
    || LowerCase(text) == "replace-with-a-long-random-password"
    || LowerCase(text) == "replace-with-at-least-32-random-characters"
    || LowerCase(text) == "replace-with-a-base64url-encoded-32-byte-key"
    || PREFIX <= text
  }

  /** The key the settings take from a text, if they accept it. */
  function SettingsKey(text: string): Option<Bytes> {
    if IsPlaceholder(text) then None
    else match DecodeStrict(text)
      case None => None
      case Some(raw) => if |raw| != KEY_BYTES then None else Some(raw)
  }

  // ---------- What the settings accept ----------

  /** 43 characters of the alphabets, padded or not. */
  predicate KeyShape(text: string) {
    |text| >= 43 && AllDigits(text[..43]) && (|text| == 43 || text == text[..43] + "=")
  }

  lemma {:induction false} DigitsScanStrictly(t: string, tail: string, m: Scanner, out: Bytes)
    requires AllDigits(t) && Ready(m)
    ensures ScanStrict(t + tail, m, false, out) == ScanStrict(tail, Feed(t, m, out).0, false, Feed(t, m, out).1)
    decreases |t|
  {
    if t == "" {
      assert t + tail == tail;
    } else {
      DigitIsAscii(t[0]);
      assert DigitOf(t[0]).Some?;
      var (m1, out1) := Fed(t[0], m, out);
      DigitsScanStrictly(t[1..], tail, m1, out1);
      assert (t + tail)[1..] == t[1..] + tail;
    }
  }

  /** Once padding has begun in its place, only the rest of it may follow. */
  lemma {:induction false} OnlyPadsFollow(s: string, m: Scanner, out: Bytes)
    requires Ready(m) && m.quad >= 2 && m.quad + m.pads < 4 && ScanStrict(s, m, true, out).Some?
    ensures s == Pads(4 - m.quad - m.pads) && ScanStrict(s, m, true, out) == Some(out)
  {
    if m.quad + m.pads + 1 < 4 {
      OnlyPadsFollow(s[1..], m.(pads := m.pads + 1), out);
    }
  }

  lemma {:induction false} NothingMendsOneDigit(s: string, m: Scanner, out: Bytes)
    requires Ready(m) && m.quad == 1
    ensures ScanStrict(s, m, true, out) == None
  {
    if s != "" && s[0] == PAD {
      NothingMendsOneDigit(s[1..], m, out);
    }
  }

  /** Text that scans strictly is digits and then exactly the padding they need. */
  lemma {:induction false} StrictShape(s: string, m: Scanner, out: Bytes) returns (n: nat)
    requires Ready(m) && m.pads == 0 && ScanStrict(s, m, false, out).Some?
    ensures n <= |s| && AllDigits(s[..n])
    ensures ScanStrict(s, m, false, out) == Some(Feed(s[..n], m, out).1)
    ensures var quad := Feed(s[..n], m, out).0.quad;
            s[n..] == Pads((4 - quad) % 4) && quad != 1
    decreases |s|
  {
    if s == "" {
      n := 0;
    } else if s[0] == PAD {
      n := 0;
      if m.quad == 1 {
        NothingMendsOneDigit(s[1..], m, out);
      } else {
        PaddingFollows(s, m, out);
      }
    } else {
      var (m1, out1) := Fed(s[0], m, out);
      FedShape(s[0], m, out);
      var k := StrictShape(s[1..], m1, out1);
      n := k + 1;
      hide ScanStrict, Fed;
      assert s[..n] == [s[0]] + s[1..][..k] && s[n..] == s[1..][k..];
      assert s[..n][1..] == s[1..][..k];
    }
  }

  lemma PaddingFollows(s: string, m: Scanner, out: Bytes)
    requires Ready(m) && m.pads == 0 && m.quad != 1 && s != "" && s[0] == PAD && ScanStrict(s, m, false, out).Some?
    ensures s == Pads((4 - m.quad) % 4) && ScanStrict(s, m, false, out) == Some(out)
  {
    if m.quad == 2 {
      OnlyPadsFollow(s[1..], m.(pads := 1), out);
      assert s == [PAD] + s[1..];
    }
  }

  /** 32 bytes take exactly 43 digits. */
  lemma DigitsOfKey(n: nat)
    ensures BytesOf(0, n) == KEY_BYTES <==> n == 43
  {
  }

  lemma PadsAreNoDigits(text: string, pads: nat, n: nat)
    requires |text| < n <= |text + Pads(pads)|
    ensures !AllDigits((text + Pads(pads))[..n])
  {
    assert (text + Pads(pads))[..n][|text|] == PAD;
  }

  lemma StrictKeysHaveShape(text: string)
    requires DecodeStrict(text).Some? && |DecodeStrict(text).value| == KEY_BYTES
    ensures KeyShape(text)
  {
    var s := text + Pads(MissingPads(|text|));
    var n := StrictShape(s, START, []);
    FeedShape(s[..n], START, []);
    DigitsOfKey(n);
    hide ScanStrict, Feed, BytesOf;
    assert Feed(s[..43], START, []).0.quad == 3 && s[43..] == Pads(1);
    if |text| < 43 {
      PadsAreNoDigits(text, MissingPads(|text|), 43);
    }
    assert text[..43] == s[..43];
    if |text| == 44 {
      assert text == s && s == s[..43] + s[43..];
    }
  }

  lemma ShapedKeysDecode(text: string)
    requires KeyShape(text)
    ensures DecodeStrict(text).Some? && |DecodeStrict(text).value| == KEY_BYTES && Decode(text) == DecodeStrict(text)
  {
    var d := text[..43];
    DigitsAreAllAscii(d);
    AsciiJoins(d, "=");
    OneIsAscii('=');
    assert text + Pads(MissingPads(|text|)) == d + "=";
    DigitsScanStrictly(d, "=", START, []);
    DigitsScanOn(d, "=", START, []);
    FeedShape(d, START, []);
    DigitsOfKey(43);
    hide Feed, BytesOf, AllDigits;
  }

  /** No placeholder but those with the prefix has the shape of a key. */
  lemma ShapedPlaceholders(text: string)
    requires KeyShape(text)
    ensures IsPlaceholder(text) <==> PREFIX <= text
  {
    if |text| == 44 {
      assert text[43] == '=' && LowerCase(text)[43] == '=';
    }
  }

  /**
   Of the texts a rotation accepts, the settings accept exactly those of 43 alphabet characters, padded or not, that do
   not begin like a placeholder; and they take the same key from them.
   */
  lemma SettingsAcceptExactly(text: string)
    ensures SettingsKey(text).Some? <==> KeyShape(text) && !("replace-with-" <= text)
    ensures SettingsKey(text).Some? ==> SettingsKey(text) == DecodeKey(text)
  {
    if KeyShape(text) {
      ShapedKeysDecode(text);
      ShapedPlaceholders(text);
    } else if DecodeStrict(text).Some? && |DecodeStrict(text).value| == KEY_BYTES {
      StrictKeysHaveShape(text);
    }
    hide Decode, DecodeStrict, IsPlaceholder, KeyShape;
  }

  /**
   A rotation accepts a text without padding exactly if it is ASCII with 43 characters of the alphabets, among any
   others, and its length is no multiple of four; it takes the key that the 43 stand for.
   */
  lemma RotationAcceptsExactly(text: string)
    requires PAD !in text
    ensures DecodeKey(text).Some? <==> Ascii(text) && |Stripped(text)| == 43 && |text| % 4 != 0
    ensures DecodeKey(text).Some? ==> DecodeKey(text) == Decode(Stripped(text)) && |DecodeKey(text).value| == 32
  {
    DecodeSkipsOthersExactly(text);
    StrippedIsDigits(text);
    hide Decode, Stripped, Ascii;
    if Decode(text).Some? {
      DigitsDecode(Stripped(text));
      DigitsOfKey(|Stripped(text)|);
    }
    hide BytesOf, AllDigits;
  }

  lemma DigitsDecode(t: string)
    requires AllDigits(t) && Decode(t).Some?
    ensures |Decode(t).value| == BytesOf(0, |t|)
  {
    PaddedDigitsScan(t, MissingPads(|t|));
    FeedShape(t, START, []);
    hide Scan, Feed, AllDigits, BytesOf, Ascii;
  }

  /** So a rotation may leave a key text that the restarted application refuses: stray characters behind a key. */
  lemma RotationAcceptsMore(random: Bytes)
    requires |random| == KEY_BYTES
    ensures DecodeKey(Encode(random) + "!!!!") == Some(random) && SettingsKey(Encode(random) + "!!!!") == None
  {
    var key := Encode(random);
    EncodedShape(random);
    DecodeUndoesEncode(random);
    UrlSafeIsDigits(key);
    UrlSafeIsAscii(key);
    hide Encode, Decode, AllUrlSafe, SettingsKey, AllDigits, Ascii;
    StrayCharactersAreSkipped(key);
    SettingsAcceptExactly(key + "!!!!");
  }

  lemma StrayCharactersAreSkipped(key: string)
    requires |key| == 43 && AllDigits(key) && Ascii(key) && PAD !in key
    ensures Decode(key + "!!!!") == Decode(key) && !KeyShape(key + "!!!!")
  {
    StrippedDigits(key, "!!!!");
    AsciiJoins(key, "!!!!");
    DecodeSkipsOthersExactly(key + "!!!!");
    hide Decode, Stripped, AllDigits;
    assert |key + "!!!!"| == 47;
  }

  lemma UrlSafeIsDigits(s: string)
    requires AllUrlSafe(s)
    ensures AllDigits(s) && PAD !in s
  {
    forall i | 0 <= i < |s|
      ensures DigitOf(s[i]).Some? && s[i] != PAD
    {
      assert IsUrlSafe(s[i]);
    }
  }

  lemma {:induction false} StrippedDigits(t: string, stray: string)
    requires AllDigits(t) && stray == "!!!!"
    ensures Stripped(t + stray) == t
  {
    if t == "" {
      assert t + stray == stray;
      assert stray[1..] == "!!!" && "!!!"[1..] == "!!" && "!!"[1..] == "!" && "!"[1..] == "";
    } else {
      assert (t + stray)[1..] == t[1..] + stray;
      StrippedDigits(t[1..], stray);
      assert DigitOf(t[0]).Some?;
      assert [t[0]] + t[1..] == t;
    }
  }

  /** A generated key is accepted unless it happens to begin like a placeholder. */
  lemma GeneratedKeysAreAccepted(random: Bytes)
    requires |random| == KEY_BYTES
    ensures SettingsKey(GenerateKey(random)) == if PREFIX <= GenerateKey(random) then None else Some(random)
  {
    GeneratedKeysDecode(random);
    EncodedShape(random);
    UrlSafeIsDigits(Encode(random));
    SettingsAcceptExactly(Encode(random));
    hide Encode, SettingsKey, DecodeKey, AllUrlSafe, AllDigits;
    assert Encode(random)[..43] == Encode(random);
  }
}
