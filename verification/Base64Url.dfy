/**
 Unpadded base64url (section 5 of RFC 4648): the padded encoder with its padding stripped, and the lenient decoder
 that the padding is put back for.
 */
module Base64Url {
  import opened AsciiText
  import opened Wrappers

  type Digit = x: int | 0 <= x < 64

  const PAD := '='

  // ---------- Digits and characters ----------

  function CharOf(d: Digit): char {
    if d < 26 then (d + 'A' as int) as char
    else if d < 52 then (d - 26 + 'a' as int) as char
    else if d < 62 then (d - 52 + '0' as int) as char
    else if d == 62 then '-' else '_'
  }

  /** The decoder reads both alphabets: '-' and '_' are first translated to '+' and '/'. */
  function DigitOf(c: char): Option<Digit> {
    if 'A' <= c <= 'Z' then Some(c as int - 'A' as int)
    else if 'a' <= c <= 'z' then Some(c as int - 'a' as int + 26)
    else if '0' <= c <= '9' then Some(c as int - '0' as int + 52)
    else if c == '-' || c == '+' then Some(62)
    else if c == '_' || c == '/' then Some(63)
    else None
  }

  predicate IsUrlSafe(c: char) {
    'A' <= c <= 'Z' || 'a' <= c <= 'z' || '0' <= c <= '9' || c == '-' || c == '_'
  }

  lemma CharsOfDigits(d: Digit)
    ensures IsUrlSafe(CharOf(d)) && DigitOf(CharOf(d)) == Some(d)
  {
  }

  // ---------- Encoding ----------

  function Padded(b: Bytes): string {
    if b == [] then ""
    else if |b| == 1 then [CharOf(b[0] / 4), CharOf(b[0] % 4 * 16), PAD, PAD]
    else if |b| == 2 then [CharOf(b[0] / 4), CharOf(b[0] % 4 * 16 + b[1] / 16), CharOf(b[1] % 16 * 4), PAD]
    else Quad(b[0], b[1], b[2]) + Padded(b[3..])
  }

  function Quad(x: Byte, y: Byte, z: Byte): string {
    [CharOf(x / 4), CharOf(x % 4 * 16 + y / 16), CharOf(y % 16 * 4 + z / 64), CharOf(z % 64)]
  }

  /** The four digits of three bytes are the same number as the bytes, each with the first one the greatest. */
  lemma QuadsAreTheNumber(x: Byte, y: Byte, z: Byte)
    ensures var q := Quad(x, y, z);
            && (forall i :: 0 <= i < 4 ==> DigitOf(q[i]).Some?)
            && DigitOf(q[0]).value * 262144 + DigitOf(q[1]).value * 4096 + DigitOf(q[2]).value * 64 +
               DigitOf(q[3]).value == x * 65536 + y * 256 + z
  {
    CharsOfDigits(x / 4);
    CharsOfDigits(x % 4 * 16 + y / 16);
    CharsOfDigits(y % 16 * 4 + z / 64);
    CharsOfDigits(z % 64);
    hide CharOf, DigitOf;
  }

  function RStripPad(s: string): string {
    if s != [] && s[|s| - 1] == PAD then RStripPad(s[..|s| - 1]) else s
  }

  function Encode(b: Bytes): string {
    RStripPad(Padded(b))
  }

  // ---------- Decoding ----------

  /** The decoder between two characters: how many digits of the quad are in, the bits not yet output, the pads seen. */
  datatype Scanner = Scanner(quad: int, left: int, pads: int)

  predicate Ready(m: Scanner) {
    && 0 <= m.quad < 4 && 0 <= m.pads && 0 <= m.left
    && (m.quad == 1 ==> m.left < 64) && (m.quad == 2 ==> m.left < 16) && (m.quad == 3 ==> m.left < 4)
  }

  /** The decoder after one character that is no padding; a character outside the alphabets is skipped. */
  function Fed(c: char, m: Scanner, out: Bytes): (r: (Scanner, Bytes))
    requires Ready(m)
    ensures Ready(r.0)
  {
    match DigitOf(c)
    case None => (m, out)
    case Some(d) =>
      if m.quad == 0 then (Scanner(1, d, 0), out)
      else if m.quad == 1 then (Scanner(2, d % 16, 0), out + [m.left * 4 + d / 16])
      else if m.quad == 2 then (Scanner(3, d % 4, 0), out + [m.left * 16 + d / 4])
      else (Scanner(0, 0, 0), out + [m.left * 64 + d])
  }

  /** Enough padding ends the input; a broken quad is an error. */
  function Scan(s: string, m: Scanner, out: Bytes): Option<Bytes>
    requires Ready(m)
  {
    if s == [] then (if m.quad == 0 then Some(out) else None)
    else if s[0] == PAD then
      if m.quad >= 2 then
        if m.quad + m.pads + 1 >= 4 then Some(out) else Scan(s[1..], m.(pads := m.pads + 1), out)
      else Scan(s[1..], m, out)
    else
      var (m', out') := Fed(s[0], m, out);
      Scan(s[1..], m', out')
  }

  const START := Scanner(0, 0, 0)

  /** Python's remainder of the negated length: how many pads complete the last quad. */
  function MissingPads(n: nat): nat {
    (4 - n % 4) % 4
  }

  function Pads(n: nat): string {
    seq(n, _ => PAD)
  }

  /** Text that is not ASCII is an error. */
  function Decode(s: string): Option<Bytes> {
    if !Ascii(s) then None else Scan(s + Pads(MissingPads(|s|)), START, [])
  }

  // ---------- Round trip ----------

  /** How many pads the padded form ends in. */
  function PadsOf(n: nat): nat {
    (3 - n % 3) % 3
  }

  lemma PadArithmetic(n: nat)
    ensures MissingPads((4 * n + 2) / 3) == PadsOf(n)
    ensures PadsOf(n + 3) == PadsOf(n) && (4 * (n + 3) + 2) / 3 == 4 + (4 * n + 2) / 3
  {
    var k := n / 3;
    assert (4 * n + 2) / 3 == 4 * k + if n % 3 == 0 then 0 else n % 3 + 1;
  }

  predicate AllUrlSafe(s: string) {
    forall i :: 0 <= i < |s| ==> IsUrlSafe(s[i])
  }

  /** The padded form is `body` and then the padding for this many bytes. */
  predicate Splits(padded: string, body: string, n: nat) {
    padded == body + Pads(PadsOf(n)) && AllUrlSafe(body) && |body| == (4 * n + 2) / 3
  }

  lemma {:induction false} PaddedShape(b: Bytes) returns (body: string)
    ensures Splits(Padded(b), body, |b|)
  {
    if |b| < 3 {
      body := ShortShape(b);
    } else {
      var rest := PaddedShape(b[3..]);
      QuadIsUrlSafe(b[0], b[1], b[2]);
      body := Quad(b[0], b[1], b[2]) + rest;
      hide Quad;
      Lengthen(Quad(b[0], b[1], b[2]), Padded(b[3..]), rest, |b| - 3);
    }
  }

  lemma ShortShape(b: Bytes) returns (body: string)
    requires |b| < 3
    ensures Splits(Padded(b), body, |b|)
  {
    hide CharOf, IsUrlSafe;
    if b == [] {
      body := "";
    } else if |b| == 1 {
      body := [CharOf(b[0] / 4), CharOf(b[0] % 4 * 16)];
      CharsOfDigits(b[0] / 4);
      CharsOfDigits(b[0] % 4 * 16);
    } else {
      body := [CharOf(b[0] / 4), CharOf(b[0] % 4 * 16 + b[1] / 16), CharOf(b[1] % 16 * 4)];
      CharsOfDigits(b[0] / 4);
      CharsOfDigits(b[0] % 4 * 16 + b[1] / 16);
      CharsOfDigits(b[1] % 16 * 4);
    }
  }

  lemma Lengthen(quad: string, padded: string, body: string, n: nat)
    requires |quad| == 4 && AllUrlSafe(quad) && Splits(padded, body, n)
    ensures Splits(quad + padded, quad + body, n + 3)
  {
    PadArithmetic(n);
    hide IsUrlSafe, PadsOf;
    assert quad + padded == quad + body + Pads(PadsOf(n));
  }

  lemma QuadIsUrlSafe(x: Byte, y: Byte, z: Byte)
    ensures AllUrlSafe(Quad(x, y, z))
  {
    hide CharOf, IsUrlSafe;
    CharsOfDigits(x / 4);
    CharsOfDigits(x % 4 * 16 + y / 16);
    CharsOfDigits(y % 16 * 4 + z / 64);
    CharsOfDigits(z % 64);
  }

  lemma {:induction false} StripRemovesPads(body: string, n: nat)
    requires forall i :: 0 <= i < |body| ==> body[i] != PAD
    ensures RStripPad(body + Pads(n)) == body
  {
    if n == 0 {
      assert body + Pads(n) == body;
    } else {
      assert (body + Pads(n))[..|body| + n - 1] == body + Pads(n - 1);
      StripRemovesPads(body, n - 1);
    }
  }

  /** The encoding is in the url-safe alphabet, and `n` bytes give `(4n + 2) / 3` characters: 32 give 43, 64 give 86. */
  lemma EncodedShape(b: Bytes)
    ensures AllUrlSafe(Encode(b)) && |Encode(b)| == (4 * |b| + 2) / 3
    ensures Encode(b) + Pads(MissingPads(|Encode(b)|)) == Padded(b)
  {
    var body := PaddedShape(b);
    StripRemovesPads(body, PadsOf(|b|)) by {
      NoPadIsUrlSafe(body);
    }
    hide RStripPad, IsUrlSafe, Padded;
    PadArithmetic(|b|);
  }

  lemma NoPadIsUrlSafe(body: string)
    requires AllUrlSafe(body)
    ensures forall i :: 0 <= i < |body| ==> body[i] != PAD
  {
    forall i | 0 <= i < |body|
      ensures body[i] != PAD
    {
      assert IsUrlSafe(body[i]);
    }
  }

  lemma QuadScans(x: Byte, y: Byte, z: Byte, rest: string, out: Bytes)
    ensures Scan(Quad(x, y, z) + rest, START, out) == Scan(rest, START, out + [x, y, z])
  {
    FourDigitsScan(x / 4, x % 4 * 16 + y / 16, y % 16 * 4 + z / 64, z % 64, Quad(x, y, z) + rest, rest, out);
    hide *;
    DigitsMakeBytes(x, y, z);
    assert out + [x] + [y] + [z] == out + [x, y, z];
  }

  lemma DigitsMakeBytes(x: Byte, y: Byte, z: Byte)
    ensures var d1, d2 := x % 4 * 16 + y / 16, y % 16 * 4 + z / 64;
            x / 4 * 4 + d1 / 16 == x && d1 % 16 * 16 + d2 / 4 == y && d2 % 4 * 64 + z % 64 == z
  {
  }

  lemma FourDigitsScan(d0: Digit, d1: Digit, d2: Digit, d3: Digit, s: string, rest: string, out: Bytes)
    requires s == [CharOf(d0), CharOf(d1), CharOf(d2), CharOf(d3)] + rest
    ensures Scan(s, START, out) ==
            Scan(rest, START, out + [d0 * 4 + d1 / 16] + [d1 % 16 * 16 + d2 / 4] + [d2 % 4 * 64 + d3])
  {
    hide Scan, CharOf;
    var s1, s2, s3 := s[1..], s[2..], s[3..];
    var m1, m2, m3 := Scanner(1, d0, 0), Scanner(2, d1 % 16, 0), Scanner(3, d2 % 4, 0);
    var o1 := out + [d0 * 4 + d1 / 16];
    var o2 := o1 + [d1 % 16 * 16 + d2 / 4];
    assert s == [CharOf(d0)] + s1 && s1 == [CharOf(d1)] + s2 && s2 == [CharOf(d2)] + s3 && s3 == [CharOf(d3)] + rest;
    DigitScans(d0, s1, START, out);
    DigitScans(d1, s2, m1, out);
    DigitScans(d2, s3, m2, o1);
    DigitScans(d3, rest, m3, o2);
  }

  /** What one digit does to the decoder. */
  lemma DigitScans(d: Digit, rest: string, m: Scanner, out: Bytes)
    requires Ready(m)
    ensures m.quad == 0 ==> Scan([CharOf(d)] + rest, m, out) == Scan(rest, Scanner(1, d, 0), out)
    ensures m.quad == 1 ==>
              Scan([CharOf(d)] + rest, m, out) == Scan(rest, Scanner(2, d % 16, 0), out + [m.left * 4 + d / 16])
    ensures m.quad == 2 ==>
              Scan([CharOf(d)] + rest, m, out) == Scan(rest, Scanner(3, d % 4, 0), out + [m.left * 16 + d / 4])
    ensures m.quad == 3 ==>
              Scan([CharOf(d)] + rest, m, out) == Scan(rest, Scanner(0, 0, 0), out + [m.left * 64 + d])
  {
    CharsOfDigits(d);
    assert ([CharOf(d)] + rest)[1..] == rest;
  }

  lemma {:induction false} PaddedScans(b: Bytes, out: Bytes)
    ensures Scan(Padded(b), START, out) == Some(out + b)
    decreases |b|
  {
    hide *;
    if |b| < 3 {
      ShortScans(b, out);
    } else {
      PaddedScans(b[3..], out + b[..3]);
      ThreeBytesScan(b, out);
    }
  }

  lemma ShortScans(b: Bytes, out: Bytes)
    requires |b| < 3
    ensures Scan(Padded(b), START, out) == Some(out + b)
  {
    if b == [] {
      assert out + b == out;
    } else {
      hide *;
      if |b| == 1 {
        OneByteScans(b, out);
      } else {
        TwoBytesScan(b, out);
      }
    }
  }

  lemma ThreeBytesScan(b: Bytes, out: Bytes)
    requires |b| >= 3 && Scan(Padded(b[3..]), START, out + b[..3]) == Some(out + b[..3] + b[3..])
    ensures Scan(Padded(b), START, out) == Some(out + b)
  {
    PaddedMore(b);
    hide *;
    QuadScans(b[0], b[1], b[2], Padded(b[3..]), out);
    assert b[..3] == [b[0], b[1], b[2]];
    assert out + b[..3] + b[3..] == out + b;
  }

  lemma PaddedMore(b: Bytes)
    requires |b| >= 3
    ensures Padded(b) == Quad(b[0], b[1], b[2]) + Padded(b[3..])
  {
  }

  lemma OneByteScans(b: Bytes, out: Bytes)
    requires |b| == 1
    ensures Scan(Padded(b), START, out) == Some(out + b)
  {
    hide Scan, CharOf;
    var d0, d1 := b[0] / 4, b[0] % 4 * 16;
    var s1, s2 := [CharOf(d1), PAD, PAD], [PAD, PAD];
    assert Padded(b) == [CharOf(d0)] + s1 && s1 == [CharOf(d1)] + s2;
    DigitScans(d0, s1, START, out);
    DigitScans(d1, s2, Scanner(1, d0, 0), out);
    TwoPadsScan(out + [b[0]]);
    assert [b[0]] == b;
  }

  lemma TwoBytesScan(b: Bytes, out: Bytes)
    requires |b| == 2
    ensures Scan(Padded(b), START, out) == Some(out + b)
  {
    hide Scan, CharOf;
    var d0, d1, d2 := b[0] / 4, b[0] % 4 * 16 + b[1] / 16, b[1] % 16 * 4;
    var s1, s2, s3 := [CharOf(d1), CharOf(d2), PAD], [CharOf(d2), PAD], [PAD];
    assert Padded(b) == [CharOf(d0)] + s1 && s1 == [CharOf(d1)] + s2 && s2 == [CharOf(d2)] + s3;
    DigitScans(d0, s1, START, out);
    DigitScans(d1, s2, Scanner(1, d0, 0), out);
    DigitScans(d2, s3, Scanner(2, d1 % 16, 0), out + [b[0]]);
    OnePadScans(out + [b[0]] + [b[1]]);
    assert out + [b[0]] + [b[1]] == out + b;
  }

  lemma TwoPadsScan(out: Bytes)
    ensures Scan([PAD, PAD], Scanner(2, 0, 0), out) == Some(out)
  {
    assert [PAD, PAD][1..] == [PAD];
  }

  lemma OnePadScans(out: Bytes)
    ensures Scan([PAD], Scanner(3, 0, 0), out) == Some(out)
  {
  }

  /** Decoding undoes encoding, on every byte string. */
  lemma DecodeUndoesEncode(b: Bytes)
    ensures Decode(Encode(b)) == Some(b)
  {
    EncodedShape(b);
    UrlSafeIsAscii(Encode(b));
    PaddedScans(b, []);
    assert [] + b == b;
  }

  lemma UrlSafeIsAscii(s: string)
    requires AllUrlSafe(s)
    ensures Ascii(s)
  {
    forall i | 0 <= i < |s|
      ensures s[i] < 128 as char
    {
      assert IsUrlSafe(s[i]);
    }
  }

  lemma EncodeIsInjective(a: Bytes, b: Bytes)
    requires Encode(a) == Encode(b)
    ensures a == b
  {
    DecodeUndoesEncode(a);
    DecodeUndoesEncode(b);
  }

  // ---------- Other characters ----------

  /** The characters of either alphabet, in order. */
  function Stripped(s: string): string {
    if s == "" then "" else (if DigitOf(s[0]).Some? then [s[0]] else "") + Stripped(s[1..])
  }

  predicate AllDigits(s: string) {
    forall i :: 0 <= i < |s| ==> DigitOf(s[i]).Some?
  }

  /** Scanning text without padding skips whatever is in neither alphabet. */
  lemma {:induction false} ScanSkipsOthers(s: string, tail: string, m: Scanner, out: Bytes)
    requires PAD !in s && Ready(m)
    ensures Scan(s + tail, m, out) == Scan(Stripped(s) + tail, m, out)
    decreases |s|
  {
    if s == "" {
      assert s + tail == tail && Stripped(s) + tail == tail;
    } else {
      var rest := s[1..] + tail;
      assert s + tail == [s[0]] + rest && s[0] != PAD;
      OneCharacterScans(s[0], rest, m, out);
      var (m', out') := Fed(s[0], m, out);
      ScanSkipsOthers(s[1..], tail, m', out');
      if DigitOf(s[0]).Some? {
        OneCharacterScans(s[0], Stripped(s[1..]) + tail, m, out);
        hide Scan, Fed, DigitOf;
        assert Stripped(s) + tail == [s[0]] + (Stripped(s[1..]) + tail);
      } else {
        hide Scan;
        assert Stripped(s) == Stripped(s[1..]);
      }
    }
  }

  lemma OneCharacterScans(c: char, rest: string, m: Scanner, out: Bytes)
    requires c != PAD && Ready(m)
    ensures Scan([c] + rest, m, out) == Scan(rest, Fed(c, m, out).0, Fed(c, m, out).1)
  {
    assert ([c] + rest)[1..] == rest;
  }

  /** The decoder after some characters, none of them padding. */
  function Feed(t: string, m: Scanner, out: Bytes): (r: (Scanner, Bytes))
    requires Ready(m)
    ensures Ready(r.0)
  {
    if t == "" then (m, out)
    else
      var (m', out') := Fed(t[0], m, out);
      Feed(t[1..], m', out')
  }

  lemma DigitIsAscii(c: char)
    requires DigitOf(c).Some?
    ensures c != PAD && c < 128 as char
  {
  }

  /** Scanning some digits goes on from where they leave the decoder. */
  lemma {:induction false} DigitsScanOn(t: string, tail: string, m: Scanner, out: Bytes)
    requires AllDigits(t) && Ready(m)
    ensures Scan(t + tail, m, out) == Scan(tail, Feed(t, m, out).0, Feed(t, m, out).1)
    decreases |t|
  {
    if t == "" {
      assert t + tail == tail;
    } else {
      DigitIsAscii(t[0]);
      var (m1, out1) := Fed(t[0], m, out);
      OneCharacterScans(t[0], t[1..] + tail, m, out);
      DigitsScanOn(t[1..], tail, m1, out1);
      hide Scan, Fed, DigitOf;
      assert t + tail == [t[0]] + (t[1..] + tail);
    }
  }

  /** How many bytes `n` digits yield from a place in the quad: a quad's first digit yields none. */
  function BytesOf(quad: nat, n: nat): int {
    n - ((quad + n + 3) / 4 - (quad + 3) / 4)
  }

  lemma OneDigitMore(quad: nat, n: nat)
    requires quad < 4 && n >= 1
    ensures var next := (quad + 1) % 4;
            && (next + (n - 1)) % 4 == (quad + n) % 4
            && BytesOf(quad, n) == (if quad == 0 then 0 else 1) + BytesOf(next, n - 1)
  {
  }

  lemma FedShape(c: char, m: Scanner, out: Bytes)
    requires DigitOf(c).Some? && Ready(m)
    ensures var (m', out') := Fed(c, m, out);
            m'.pads == 0 && m'.quad == (m.quad + 1) % 4 && |out'| == |out| + if m.quad == 0 then 0 else 1
  {
  }

  /** Digits step through the quad and yield their bytes. */
  lemma {:induction false} FeedShape(t: string, m: Scanner, out: Bytes)
    requires AllDigits(t) && Ready(m) && m.pads == 0
    ensures var (m', out') := Feed(t, m, out);
            m'.pads == 0 && m'.quad == (m.quad + |t|) % 4 && |out'| == |out| + BytesOf(m.quad, |t|)
    decreases |t|
  {
    hide Fed, DigitOf;
    if t != "" {
      FedShape(t[0], m, out);
      var (m1, out1) := Fed(t[0], m, out);
      FeedShape(t[1..], m1, out1);
      OneDigitMore(m.quad, |t|);
      hide BytesOf;
    }
  }

  /** The padding must complete the quad, and more of it does no harm. */
  lemma PadsScan(m: Scanner, out: Bytes, k: nat)
    requires Ready(m) && m.pads == 0 && k <= 3
    ensures Scan(Pads(k), m, out) == if m.quad == 0 || (m.quad >= 2 && m.quad + k >= 4) then Some(out) else None
  {
    assert Pads(0) == "" && Pads(1)[1..] == Pads(0) && Pads(2)[1..] == Pads(1) && Pads(3)[1..] == Pads(2);
    var m1 := m.(pads := 1);
    assert m.quad >= 2 ==> Scan(Pads(0), m1, out) == None;
    assert m.quad == 2 && k >= 2 ==> Scan(Pads(k - 1), m1, out) == Some(out);
    if m.quad < 2 {
      OtherQuadsSkipPads(m, out, k);
    }
  }

  lemma {:induction false} OtherQuadsSkipPads(m: Scanner, out: Bytes, k: nat)
    requires Ready(m) && m.quad < 2
    ensures Scan(Pads(k), m, out) == if m.quad == 0 then Some(out) else None
  {
    if k > 0 {
      assert Pads(k)[1..] == Pads(k - 1);
      OtherQuadsSkipPads(m, out, k - 1);
    }
  }

  lemma {:induction false} StrippedIsDigits(s: string)
    ensures AllDigits(Stripped(s)) && |Stripped(s)| <= |s|
    ensures PAD !in Stripped(s)
  {
    if s != "" {
      StrippedIsDigits(s[1..]);
    }
  }

  /**
   The decoder refuses text that is not ASCII and skips other characters outside both alphabets, yet pads by the whole
   length: text with `n` characters of the alphabets decodes exactly when it is ASCII, `n` digits can end a text and the
   padding still completes them, and then to what the digits alone decode to.
   */
  lemma DecodeSkipsOthersExactly(s: string)
    requires PAD !in s
    ensures var n := |Stripped(s)|;
            Decode(s).Some? <==> Ascii(s) && n % 4 != 1 && MissingPads(|s|) >= MissingPads(n)
    ensures Decode(s).Some? ==> Decode(s) == Decode(Stripped(s))
  {
    var t := Stripped(s);
    StrippedIsDigits(s);
    DigitsAreAllAscii(t);
    ScanSkipsOthers(s, Pads(MissingPads(|s|)), START, []);
    PaddedDigitsScan(t, MissingPads(|s|));
    PaddedDigitsScan(t, MissingPads(|t|));
    hide Scan, Stripped, Feed, Ascii, AllDigits;
  }

  /** Digits and then padding: the padding must complete the last quad. */
  lemma PaddedDigitsScan(t: string, k: nat)
    requires AllDigits(t) && k <= 3
    ensures Scan(t + Pads(k), START, []) ==
            if |t| % 4 != 1 && k >= MissingPads(|t|) then Some(Feed(t, START, []).1) else None
  {
    DigitsScanOn(t, Pads(k), START, []);
    FeedQuad(t);
    hide *;
    var (m, out) := Feed(t, START, []);
    PadsScan(m, out, k);
    PadsCompleteQuad(|t|, k);
  }

  lemma FeedQuad(t: string)
    requires AllDigits(t)
    ensures Feed(t, START, []).0.quad == |t| % 4 && Feed(t, START, []).0.pads == 0
  {
    FeedShape(t, START, []);
    hide *;
  }

  lemma PadsCompleteQuad(n: nat, k: nat)
    ensures n % 4 == 0 || (n % 4 >= 2 && n % 4 + k >= 4) <==> n % 4 != 1 && k >= MissingPads(n)
  {
  }

  lemma DigitsAreAllAscii(t: string)
    requires AllDigits(t)
    ensures Ascii(t)
  {
    forall i | 0 <= i < |t|
      ensures t[i] < 128 as char
    {
      DigitIsAscii(t[i]);
    }
  }

  /** One stray character can make text undecodable: by upsetting the padding, or by not being ASCII. */
  lemma StrayCharacterBreaks()
    ensures Decode("QQ") == Some([65]) && Decode("QQ!") == None
    ensures Decode("QQQQ") == Some([65, 4, 16]) && Decode("QQQQ\U{00e9}") == None
  {
    StrayPadding();
    NotAscii();
  }

  lemma StrayPadding()
    ensures Decode("QQ") == Some([65]) && Decode("QQ!") == None
  {
    OneByteText();
    StrippedText();
    hide *;
    DecodeUndoesEncode([65]);
    DecodeSkipsOthersExactly("QQ!");
    assert MissingPads(3) == 1 && MissingPads(2) == 2 by {
      PadCounts();
    }
  }

  lemma PadCounts()
    ensures MissingPads(3) == 1 && MissingPads(2) == 2
  {
  }

  lemma OneByteText()
    ensures Encode([65]) == "QQ"
  {
    assert Padded([65]) == "QQ==" && "QQ=="[..3] == "QQ=" && "QQ="[..2] == "QQ";
  }

  lemma StrippedText()
    ensures Stripped("QQ!") == "QQ" && PAD !in "QQ!"
  {
    assert "QQ!"[1..] == "Q!" && "Q!"[1..] == "!" && "!"[1..] == "";
  }

  lemma NotAscii()
    ensures Decode("QQQQ") == Some([65, 4, 16]) && Decode("QQQQ\U{00e9}") == None
  {
    assert "QQQQ\U{00e9}"[4] >= 128 as char;
    DecodeUndoesEncode([65, 4, 16]);
    hide Scan;
    assert Padded([65, 4, 16]) == Quad(65, 4, 16) + Padded([]) == "QQQQ";
  }
}
