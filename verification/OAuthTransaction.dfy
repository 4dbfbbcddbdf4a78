/**
 The signed browser cookie that carries one OAuth exchange: created, serialized, verified and parsed. The hash and
 the message authentication code are parameters; only their 32-byte length is used.
 */
module OAuthTransaction {
  import opened Wrappers
  import opened AsciiText
  import opened Base64Url
  import opened Numbers
  import FlatJson

  type Mac = (Bytes, Bytes) -> Bytes

  datatype Transaction = Transaction(state: string, nonce: string, codeVerifier: string, expiresAt: int)

  const TTL_SECONDS: real := 600.0
  const LONGEST_COOKIE: nat := 2048
  const EARLIEST: real := -62135596800.0
  const LATEST: real := 253402300800.0

  ghost predicate IsMac(mac: Mac) {
    forall key, message :: |mac(key, message)| == 32
  }

  /** A fresh transaction out of 32, 32 and 64 random bytes. */
  function Create(a: Bytes, b: Bytes, c: Bytes, now: real): Transaction
    requires |a| == 32 && |b| == 32 && |c| == 64
  {
    Transaction(Encode(a), Encode(b), Encode(c), Trunc(now + TTL_SECONDS))
  }

  function CodeChallenge(t: Transaction, sha256: Bytes -> Bytes): string
    requires Ascii(t.codeVerifier)
  {
    Encode(sha256(AsBytes(t.codeVerifier)))
  }

  predicate IsUrlSafeToken(s: string, length: nat) {
    |s| == length && AllUrlSafe(s)
  }

  function Payload(t: Transaction): FlatJson.Members {
    [ ("code_verifier", FlatJson.Text(t.codeVerifier)),
      ("expires_at", FlatJson.Number(t.expiresAt)),
      ("nonce", FlatJson.Text(t.nonce)),
      ("state", FlatJson.Text(t.state)) ]
  }

  /** What `Create` can produce: tokens of the expected lengths, and an expiry within the calendar. */
  predicate Creatable(t: Transaction) {
    && IsUrlSafeToken(t.state, 43) && IsUrlSafeToken(t.nonce, 43) && IsUrlSafeToken(t.codeVerifier, 86)
    && -1000000000000 < t.expiresAt < 1000000000000
  }

  function Signature(encoded: string, key: Bytes, mac: Mac): string
    requires Ascii(encoded)
  {
    Encode(mac(key, AsBytes(encoded)))
  }

  function Serialize(t: Transaction, key: Bytes, mac: Mac): string
    requires Creatable(t)
  {
    PayloadIsAscii(t);
    var encoded := Encode(AsBytes(FlatJson.Object(Payload(t))));
    EncodingIsAscii(AsBytes(FlatJson.Object(Payload(t))));
    encoded + ['.'] + Signature(encoded, key, mac)
  }

  function Dots(s: string): nat {
    if s == [] then 0 else (if s[0] == '.' then 1 else 0) + Dots(s[1..])
  }

  function FirstDot(s: string): (i: nat)
    requires Dots(s) > 0
    ensures i < |s| && s[i] == '.'
  {
    if s[0] == '.' then 0 else 1 + FirstDot(s[1..])
  }

  function Deserialize(value: Option<string>, key: Bytes, now: real, mac: Mac): Option<Transaction> {
    if value.None? || Dots(value.value) != 1 || |value.value| > LONGEST_COOKIE then None
    else
      var dot := FirstDot(value.value);
      var encoded, supplied := value.value[..dot], value.value[dot + 1..];
      if !Ascii(encoded) || !Ascii(supplied) then None
      else if supplied != Signature(encoded, key, mac) then None
      else match ParsedPayload(encoded)
        case None => None
        case Some(t) => if Trunc(now) >= t.expiresAt then None else Some(t)
  }

  /** The payload as a transaction with well-formed tokens. */
  function ParsedPayload(encoded: string): Option<Transaction> {
    match Decode(encoded)
    case None => None
    case Some(bytes) =>
      match AsText(bytes)
      case None => None
      case Some(text) =>
        match FlatJson.Read(text)
        case None => None
        case Some(members) => FromMembers(members)
  }

  function FromMembers(ms: FlatJson.Members): Option<Transaction> {
    match (FlatJson.Lookup(ms, "state"), FlatJson.Lookup(ms, "nonce"), FlatJson.Lookup(ms, "code_verifier"),
           FlatJson.Lookup(ms, "expires_at"))
    case (Some(Text(state)), Some(Text(nonce)), Some(Text(verifier)), Some(Number(expiresAt))) =>
      if IsUrlSafeToken(state, 43) && IsUrlSafeToken(nonce, 43) && IsUrlSafeToken(verifier, 86)
      then Some(Transaction(state, nonce, verifier, expiresAt)) else None
    case _ => None
  }

  // ---------- The tokens ----------

  lemma UrlSafeIsPlain(s: string)
    requires AllUrlSafe(s)
    ensures FlatJson.PlainText(s) && Ascii(s) && '.' !in s
  {
    forall i | 0 <= i < |s|
      ensures FlatJson.Plain(s[i]) && s[i] < 128 as char && s[i] != '.'
    {
      assert IsUrlSafe(s[i]);
    }
  }

  /** Every created transaction has 43, 43 and 86 character tokens; RFC 7636 asks for 43 to 128 for the verifier. */
  lemma CreatedIsCreatable(a: Bytes, b: Bytes, c: Bytes, now: real)
    requires |a| == 32 && |b| == 32 && |c| == 64
    requires EARLIEST <= now && now + TTL_SECONDS < LATEST
    ensures Creatable(Create(a, b, c, now))
  {
    EncodedShape(a);
    EncodedShape(b);
    EncodedShape(c);
    hide Encode, AllUrlSafe;
  }

  /**
   The tokens are the random draws: each decodes to its own, so two created transactions share a token exactly when they
   drew the same bytes for it.
   */
  lemma CreationTellsDrawsApart(a: Bytes, b: Bytes, c: Bytes, now: real, x: Bytes, y: Bytes, z: Bytes, later: real)
    requires |a| == 32 && |b| == 32 && |c| == 64 && |x| == 32 && |y| == 32 && |z| == 64
    ensures var t, u := Create(a, b, c, now), Create(x, y, z, later);
            && Decode(t.state) == Some(a) && Decode(t.nonce) == Some(b) && Decode(t.codeVerifier) == Some(c)
            && (t.state == u.state <==> a == x) && (t.nonce == u.nonce <==> b == y)
            && (t.codeVerifier == u.codeVerifier <==> c == z)
  {
    DecodeUndoesEncode(a);
    DecodeUndoesEncode(b);
    DecodeUndoesEncode(c);
    DecodeUndoesEncode(x);
    DecodeUndoesEncode(y);
    DecodeUndoesEncode(z);
    hide Decode, Encode;
  }

  /** The challenge is the digest of the verifier as a 43-character url-safe token, and tells digests apart. */
  lemma ChallengesDiffer(t: Transaction, u: Transaction, sha256: Bytes -> Bytes)
    requires Creatable(t) && Creatable(u) && forall m :: |sha256(m)| == 32
    ensures Ascii(t.codeVerifier) && Ascii(u.codeVerifier)
    ensures IsUrlSafeToken(CodeChallenge(t, sha256), 43)
    ensures CodeChallenge(t, sha256) == CodeChallenge(u, sha256) <==>
            sha256(AsBytes(t.codeVerifier)) == sha256(AsBytes(u.codeVerifier))
    ensures Decode(CodeChallenge(t, sha256)) == Some(sha256(AsBytes(t.codeVerifier)))
  {
    UrlSafeIsPlain(t.codeVerifier);
    UrlSafeIsPlain(u.codeVerifier);
    var x, y := sha256(AsBytes(t.codeVerifier)), sha256(AsBytes(u.codeVerifier));
    EncodedShape(x);
    DecodeUndoesEncode(x);
    hide Encode, Decode, AllUrlSafe, Ascii;
    if Encode(x) == Encode(y) {
      EncodeIsInjective(x, y);
    }
  }

  // ---------- The payload ----------

  /** A member of at most `MEMBER_LENGTH` ASCII characters. */
  predicate Short(m: (string, FlatJson.Value)) {
    Ascii(FlatJson.Member(m)) && |FlatJson.Member(m)| <= MEMBER_LENGTH
  }

  const MEMBER_LENGTH := 104

  lemma TextIsShort(name: string, s: string)
    requires Ascii(name) && |name| <= 13 && Ascii(s) && |s| <= 86
    ensures Short((name, FlatJson.Text(s)))
  {
  }

  lemma NumberIsShort(name: string, n: int)
    requires Ascii(name) && |name| <= 13 && |FlatJson.Integer(n)| <= 13
    ensures Short((name, FlatJson.Number(n)))
  {
    DigitsAreAscii(if n < 0 then -n else n);
    hide FlatJson.Digits;
  }

  lemma {:induction false} ShortMembersJoin(ms: FlatJson.Members)
    requires ms != [] && forall i :: 0 <= i < |ms| ==> Short(ms[i])
    ensures Ascii(FlatJson.Rest(ms)) && |FlatJson.Rest(ms)| <= |ms| * (MEMBER_LENGTH + 1)
  {
    assert Short(ms[0]);
    hide FlatJson.Member, Ascii;
    var rest := if |ms| == 1 then "}" else "," + FlatJson.Rest(ms[1..]);
    assert Ascii("}") && Ascii(",") by { OneIsAscii('}'); OneIsAscii(','); }
    if |ms| > 1 {
      ShortMembersJoin(ms[1..]);
      AsciiJoins(",", FlatJson.Rest(ms[1..]));
    }
    AsciiJoins(FlatJson.Member(ms[0]), rest);
  }

  lemma IntegerIsShort(n: int)
    requires -1000000000000 < n < 1000000000000
    ensures |FlatJson.Integer(n)| <= 13
  {
    assert FlatJson.Power10(12) == 1000000000000 by {
      assert FlatJson.Power10(4) == 10000;
      assert FlatJson.Power10(8) == 100000000;
    }
    FlatJson.DigitsAreFew(if n < 0 then -n else n, 12);
  }

  lemma PayloadIsAscii(t: Transaction)
    requires Creatable(t)
    ensures Ascii(FlatJson.Object(Payload(t))) && |FlatJson.Object(Payload(t))| <= 421
  {
    UrlSafeIsPlain(t.state);
    UrlSafeIsPlain(t.nonce);
    UrlSafeIsPlain(t.codeVerifier);
    IntegerIsShort(t.expiresAt);
    TextIsShort("code_verifier", t.codeVerifier);
    NumberIsShort("expires_at", t.expiresAt);
    TextIsShort("nonce", t.nonce);
    TextIsShort("state", t.state);
    hide Short, FlatJson.Rest, AllUrlSafe, FlatJson.PlainText, FlatJson.Integer;
    ShortMembersJoin(Payload(t));
    OneIsAscii('{');
    hide Ascii;
    AsciiJoins("{", FlatJson.Rest(Payload(t)));
  }

  lemma FourMembers(a: (string, FlatJson.Value), b: (string, FlatJson.Value), c: (string, FlatJson.Value),
                    d: (string, FlatJson.Value))
    ensures FlatJson.Object([a, b, c, d]) ==
            "{" + (FlatJson.Member(a) + ("," + (FlatJson.Member(b) + ("," + (FlatJson.Member(c) + ("," +
            (FlatJson.Member(d) + "}")))))))
  {
    hide FlatJson.Member;
    assert [a, b, c, d][1..] == [b, c, d] && [b, c, d][1..] == [c, d] && [c, d][1..] == [d];
    assert FlatJson.Rest([d]) == FlatJson.Member(d) + "}";
    assert FlatJson.Rest([c, d]) == FlatJson.Member(c) + ("," + FlatJson.Rest([d]));
    assert FlatJson.Rest([b, c, d]) == FlatJson.Member(b) + ("," + FlatJson.Rest([c, d]));
    assert FlatJson.Rest([a, b, c, d]) == FlatJson.Member(a) + ("," + FlatJson.Rest([b, c, d]));
  }

  lemma TextMember(name: string, s: string)
    ensures FlatJson.Member((name, FlatJson.Text(s))) == "\"" + name + "\":\"" + s + "\""
  {
  }

  lemma NumberMember(name: string, n: int)
    ensures FlatJson.Member((name, FlatJson.Number(n))) == "\"" + name + "\":" + FlatJson.Integer(n)
  {
    hide FlatJson.Integer;
  }

  /** The signed text: names in order, no blanks, the expiry as a number. */
  lemma PayloadText(t: Transaction)
    ensures FlatJson.Object(Payload(t)) ==
            "{" + ("\"" + "code_verifier" + "\":\"" + t.codeVerifier + "\"" + ("," +
            ("\"" + "expires_at" + "\":" + FlatJson.Integer(t.expiresAt) + ("," +
            ("\"" + "nonce" + "\":\"" + t.nonce + "\"" + ("," +
            ("\"" + "state" + "\":\"" + t.state + "\"" + "}")))))))
  {
    hide FlatJson.Member, FlatJson.Integer, FlatJson.Object;
    TextMember("code_verifier", t.codeVerifier);
    NumberMember("expires_at", t.expiresAt);
    TextMember("nonce", t.nonce);
    TextMember("state", t.state);
    FourMembers(("code_verifier", FlatJson.Text(t.codeVerifier)), ("expires_at", FlatJson.Number(t.expiresAt)),
                ("nonce", FlatJson.Text(t.nonce)), ("state", FlatJson.Text(t.state)));
  }

  lemma EncodingIsAscii(b: Bytes)
    ensures Ascii(Encode(b)) && '.' !in Encode(b)
  {
    EncodedShape(b);
    UrlSafeIsPlain(Encode(b));
  }

  // ---------- Round trip ----------

  lemma {:induction false} NoDots(s: string)
    requires '.' !in s
    ensures Dots(s) == 0
  {
    if s != [] {
      NoDots(s[1..]);
    }
  }

  lemma {:induction false} OneDot(a: string, b: string)
    requires '.' !in a && '.' !in b
    ensures Dots(a + ['.'] + b) == 1 && FirstDot(a + ['.'] + b) == |a|
  {
    var s := a + ['.'] + b;
    if a == [] {
      assert s[1..] == b;
      NoDots(b);
    } else {
      assert s[1..] == a[1..] + ['.'] + b;
      OneDot(a[1..], b);
    }
  }

  lemma PayloadIsWritable(t: Transaction)
    requires Creatable(t)
    ensures FlatJson.AllWritable(Payload(t))
  {
    UrlSafeIsPlain(t.state);
    UrlSafeIsPlain(t.nonce);
    UrlSafeIsPlain(t.codeVerifier);
  }

  lemma LookupLast(ms: FlatJson.Members, m: (string, FlatJson.Value), name: string)
    ensures FlatJson.Lookup(ms + [m], name) == if m.0 == name then Some(m.1) else FlatJson.Lookup(ms, name)
  {
    assert (ms + [m])[..|ms|] == ms;
  }

  lemma PayloadLooksUp(t: Transaction)
    ensures FlatJson.Lookup(Payload(t), "state") == Some(FlatJson.Text(t.state))
    ensures FlatJson.Lookup(Payload(t), "nonce") == Some(FlatJson.Text(t.nonce))
    ensures FlatJson.Lookup(Payload(t), "code_verifier") == Some(FlatJson.Text(t.codeVerifier))
    ensures FlatJson.Lookup(Payload(t), "expires_at") == Some(FlatJson.Number(t.expiresAt))
  {
    var ms := Payload(t);
    assert "state"[0] != "nonce"[0] && "state"[0] != "expires_at"[0] && "state"[0] != "code_verifier"[0];
    assert "nonce"[0] != "expires_at"[0] && "nonce"[0] != "code_verifier"[0] && "expires_at"[0] != "code_verifier"[0];
    var ms0, ms1, ms2 := [ms[0]], [ms[0], ms[1]], [ms[0], ms[1], ms[2]];
    assert ms == ms2 + [ms[3]] && ms2 == ms1 + [ms[2]] && ms1 == ms0 + [ms[1]] && ms0 == [] + [ms[0]];
    hide FlatJson.Lookup;
    LookupLast(ms2, ms[3], "state");
    LookupLast(ms2, ms[3], "nonce");
    LookupLast(ms1, ms[2], "nonce");
    LookupLast(ms2, ms[3], "expires_at");
    LookupLast(ms1, ms[2], "expires_at");
    LookupLast(ms0, ms[1], "expires_at");
    LookupLast(ms2, ms[3], "code_verifier");
    LookupLast(ms1, ms[2], "code_verifier");
    LookupLast(ms0, ms[1], "code_verifier");
    LookupLast([], ms[0], "code_verifier");
  }

  lemma PayloadParses(t: Transaction)
    requires Creatable(t)
    ensures Ascii(FlatJson.Object(Payload(t)))
    ensures ParsedPayload(Encode(AsBytes(FlatJson.Object(Payload(t))))) == Some(t)
  {
    assert Payload(t) != [];
    hide Payload, FlatJson.Object, FlatJson.Read, FlatJson.Lookup, Encode, Decode, AsText, Ascii, AllUrlSafe;
    PayloadIsAscii(t);
    PayloadReads(t);
    TextOfBytes(FlatJson.Object(Payload(t)));
    DecodeUndoesEncode(AsBytes(FlatJson.Object(Payload(t))));
  }

  /** The payload reads back as its members, and they make up the transaction. */
  lemma PayloadReads(t: Transaction)
    requires Creatable(t)
    ensures FlatJson.Read(FlatJson.Object(Payload(t))) == Some(Payload(t)) && FromMembers(Payload(t)) == Some(t)
  {
    hide FlatJson.Object, FlatJson.Read, FlatJson.Lookup, AllUrlSafe;
    PayloadIsWritable(t);
    FlatJson.ReadUndoesWrite(Payload(t));
    PayloadLooksUp(t);
    hide Payload;
  }

  /** The cookie has one dot, 43 characters of signature behind it, and fits the limit with room to spare. */
  lemma CookieShape(t: Transaction, key: Bytes, mac: Mac)
    requires Creatable(t) && IsMac(mac)
    ensures Dots(Serialize(t, key, mac)) == 1 && |Serialize(t, key, mac)| <= 606 < LONGEST_COOKIE
    ensures |Serialize(t, key, mac)| == FirstDot(Serialize(t, key, mac)) + 44
    ensures Ascii(FlatJson.Object(Payload(t)))
    ensures FirstDot(Serialize(t, key, mac)) == |Encode(AsBytes(FlatJson.Object(Payload(t))))|
  {
    PayloadIsAscii(t);
    var bytes := AsBytes(FlatJson.Object(Payload(t)));
    EncodingIsAscii(bytes);
    var digest := mac(key, AsBytes(Encode(bytes)));
    EncodingIsAscii(digest);
    EncodedShape(bytes);
    EncodedShape(digest);
    OneDot(Encode(bytes), Encode(digest));
    hide Encode, FlatJson.Object, Payload, Ascii, Dots, FirstDot;
  }

  /** A serialized transaction comes back whole exactly until it expires. */
  lemma DeserializeUndoesSerialize(t: Transaction, key: Bytes, now: real, mac: Mac)
    requires Creatable(t) && IsMac(mac)
    ensures Deserialize(Some(Serialize(t, key, mac)), key, now, mac) ==
            if Trunc(now) < t.expiresAt then Some(t) else None
  {
    CookieShape(t, key, mac);
    PayloadParses(t);
    var bytes := AsBytes(FlatJson.Object(Payload(t)));
    EncodingIsAscii(bytes);
    EncodingIsAscii(mac(key, AsBytes(Encode(bytes))));
    hide Encode, FlatJson.Object, Payload, Ascii, Dots, FirstDot, ParsedPayload, AsBytes;
    var value := Serialize(t, key, mac);
    assert value[..|Encode(bytes)|] == Encode(bytes);
    assert value[|Encode(bytes)| + 1..] == Signature(Encode(bytes), key, mac);
  }

  /** From its creation on, a transaction is accepted for the whole seconds of ten minutes. */
  lemma TransactionsLiveTenMinutes(a: Bytes, b: Bytes, c: Bytes, created: real, key: Bytes, now: real, mac: Mac)
    requires |a| == 32 && |b| == 32 && |c| == 64 && IsMac(mac)
    requires 0.0 <= created && created + TTL_SECONDS < LATEST
    ensures var t := Create(a, b, c, created);
            && Creatable(t)
            && (now <= created + 599.0 ==> Deserialize(Some(Serialize(t, key, mac)), key, now, mac) == Some(t))
            && (now >= created + 600.0 ==> Deserialize(Some(Serialize(t, key, mac)), key, now, mac) == None)
  {
    CreatedIsCreatable(a, b, c, created);
    DeserializeUndoesSerialize(Create(a, b, c, created), key, now, mac);
    hide Create, Creatable, Serialize, Deserialize;
    assert Create(a, b, c, created).expiresAt == Trunc(created + TTL_SECONDS);
  }

  // ---------- Tampering ----------

  /** For one encoded payload only one cookie is ever accepted under a key: any other signature is refused. */
  lemma {:induction false} OnlyOneSignature(v: string, w: string, key: Bytes, now: real, later: real, mac: Mac)
    requires Deserialize(Some(v), key, now, mac).Some? && Deserialize(Some(w), key, later, mac).Some?
    requires v[..FirstDot(v)] == w[..FirstDot(w)]
    ensures v == w
  {
    hide Dots, FirstDot, ParsedPayload, Signature, Ascii;
    var i, j := FirstDot(v), FirstDot(w);
    assert v == v[..i] + ['.'] + v[i + 1..] && w == w[..j] + ['.'] + w[j + 1..];
  }

  /** An accepted cookie's digest is the one the key gives: with another digest for its payload it would be refused. */
  lemma {:induction false} AcceptedUnderOneDigest(v: string, key: Bytes, other: Bytes, now: real, mac: Mac)
    requires Deserialize(Some(v), key, now, mac).Some? && Deserialize(Some(v), other, now, mac).Some?
    ensures Ascii(v[..FirstDot(v)])
    ensures mac(key, AsBytes(v[..FirstDot(v)])) == mac(other, AsBytes(v[..FirstDot(v)]))
  {
    var encoded := v[..FirstDot(v)];
    EncodeIsInjective(mac(key, AsBytes(encoded)), mac(other, AsBytes(encoded)));
  }

  /** The text decodes to a JSON object with the members of the transaction under their names. */
  predicate Says(encoded: string, t: Transaction) {
    && Decode(encoded).Some? && AsText(Decode(encoded).value).Some?
    && FlatJson.Read(AsText(Decode(encoded).value).value).Some?
    && var ms := FlatJson.Read(AsText(Decode(encoded).value).value).value;
    && FlatJson.Lookup(ms, "state") == Some(FlatJson.Text(t.state))
    && FlatJson.Lookup(ms, "nonce") == Some(FlatJson.Text(t.nonce))
    && FlatJson.Lookup(ms, "code_verifier") == Some(FlatJson.Text(t.codeVerifier))
    && FlatJson.Lookup(ms, "expires_at") == Some(FlatJson.Number(t.expiresAt))
  }

  lemma ParsedIsSaid(encoded: string)
    ensures ParsedPayload(encoded).Some? ==> Says(encoded, ParsedPayload(encoded).value)
  {
    hide Decode, AsText, FlatJson.Read, FlatJson.Lookup, IsUrlSafeToken;
  }

  /** An accepted cookie carries the digest of its very payload under the key, and the payload says what is accepted. */
  lemma AcceptedIsSigned(v: string, key: Bytes, now: real, mac: Mac)
    requires Deserialize(Some(v), key, now, mac).Some?
    ensures Dots(v) == 1 && |v| <= 2048 && Ascii(v[..FirstDot(v)])
    ensures Decode(v[FirstDot(v) + 1..]) == Some(mac(key, AsBytes(v[..FirstDot(v)])))
    ensures Says(v[..FirstDot(v)], Deserialize(Some(v), key, now, mac).value)
  {
    hide Decode, Encode, Dots, FirstDot, Ascii, Says, ParsedPayload, Deserialize;
    AcceptedParts(v, key, now, mac);
    DecodeUndoesEncode(mac(key, AsBytes(v[..FirstDot(v)])));
    ParsedIsSaid(v[..FirstDot(v)]);
  }

  lemma AcceptedParts(v: string, key: Bytes, now: real, mac: Mac)
    requires Deserialize(Some(v), key, now, mac).Some?
    ensures Dots(v) == 1 && |v| <= 2048 && Ascii(v[..FirstDot(v)])
    ensures v[FirstDot(v) + 1..] == Signature(v[..FirstDot(v)], key, mac)
    ensures ParsedPayload(v[..FirstDot(v)]) == Deserialize(Some(v), key, now, mac)
  {
    hide Dots, FirstDot, Ascii, Signature, ParsedPayload;
  }

  predicate HasTokens(t: Transaction) {
    IsUrlSafeToken(t.state, 43) && IsUrlSafeToken(t.nonce, 43) && IsUrlSafeToken(t.codeVerifier, 86)
  }

  lemma SaidIsParsed(encoded: string, t: Transaction)
    ensures Says(encoded, t) && HasTokens(t) ==> ParsedPayload(encoded) == Some(t)
  {
    hide Decode, AsText, FlatJson.Read, FlatJson.Lookup, IsUrlSafeToken;
  }

  /**
   A cookie is accepted as a transaction exactly if it has one dot and at most 2048 characters, all ASCII, carries the
   digest of its payload, says that transaction with well-formed tokens, and has not expired.
   */
  lemma AcceptedExactly(v: string, key: Bytes, now: real, mac: Mac, t: Transaction)
    ensures Deserialize(Some(v), key, now, mac) == Some(t) <==>
            && Dots(v) == 1 && |v| <= 2048
            && var encoded, supplied := v[..FirstDot(v)], v[FirstDot(v) + 1..];
            && Ascii(encoded) && Ascii(supplied) && supplied == Encode(mac(key, AsBytes(encoded)))
            && Says(encoded, t) && HasTokens(t) && Trunc(now) < t.expiresAt
  {
    hide Dots, FirstDot, Ascii, Encode, Says, IsUrlSafeToken, ParsedPayload;
    if Deserialize(Some(v), key, now, mac) == Some(t) {
      AcceptedIsSigned(v, key, now, mac);
      AcceptedIsWellFormed(Some(v), key, now, mac);
    } else if Dots(v) == 1 {
      SaidIsParsed(v[..FirstDot(v)], t);
    }
  }

  /** An accepted transaction within the calendar may be issued again: its own cookie is accepted as the same one. */
  lemma AcceptedMayBeReissued(value: Option<string>, key: Bytes, now: real, mac: Mac)
    requires IsMac(mac) && Deserialize(value, key, now, mac).Some?
    ensures var t := Deserialize(value, key, now, mac).value;
            Creatable(t) ==> Deserialize(Some(Serialize(t, key, mac)), key, now, mac) == Some(t)
  {
    AcceptedIsWellFormed(value, key, now, mac);
    hide Deserialize, Creatable, IsUrlSafeToken;
    var t := Deserialize(value, key, now, mac).value;
    if Creatable(t) {
      DeserializeUndoesSerialize(t, key, now, mac);
    }
  }

  /** Whatever is accepted has well-formed tokens and has not expired. */
  lemma AcceptedIsWellFormed(value: Option<string>, key: Bytes, now: real, mac: Mac)
    requires Deserialize(value, key, now, mac).Some?
    ensures var t := Deserialize(value, key, now, mac).value;
            && IsUrlSafeToken(t.state, 43) && IsUrlSafeToken(t.nonce, 43) && IsUrlSafeToken(t.codeVerifier, 86)
            && Trunc(now) < t.expiresAt
  {
    hide Decode, AsText, FlatJson.Read, FlatJson.Lookup, Dots, Ascii, Signature, IsUrlSafeToken;
  }
}
