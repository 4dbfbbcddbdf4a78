/**
 The JSON of one flat object: names and string values without escapes, and integers. Written compactly, read with
 whitespace allowed between tokens.
 */
module FlatJson {
  import opened Wrappers

  datatype Value = Text(text: string) | Number(number: int)

  type Members = seq<(string, Value)>

  // ---------- Writing ----------

  function Digits(n: nat): string {
    if n < 10 then [DigitChar(n)] else Digits(n / 10) + [DigitChar(n % 10)]
  }

  function DigitChar(d: nat): char
    requires d < 10
  {
    (d + '0' as int) as char
  }

  function Integer(n: int): string {
    if n < 0 then "-" + Digits(-n) else Digits(n)
  }

  function Quoted(s: string): string {
    ['"'] + s + ['"']
  }

  function Written(v: Value): string {
    match v
    case Text(s) => Quoted(s)
    case Number(n) => Integer(n)
  }

  function Member(m: (string, Value)): string {
    Quoted(m.0) + [':'] + Written(m.1)
  }

  /** The members from the first on, up to and with the closing brace. */
  function Rest(ms: Members): string
    requires ms != []
  {
    Member(ms[0]) + if |ms| == 1 then ['}'] else ([','] + Rest(ms[1..]))
  }

  function Object(ms: Members): string
    requires ms != []
  {
    ['{'] + Rest(ms)
  }

  // ---------- Reading ----------

  predicate IsSpace(c: char) {
    c == ' ' || c == '\t' || c == '\n' || c == '\r'
  }

  function SkipSpace(s: string): (r: string)
    ensures |r| <= |s|
  {
    if s != [] && IsSpace(s[0]) then SkipSpace(s[1..]) else s
  }

  /** The token is next, after any whitespace. */
  predicate Next(s: string, token: char) {
    var t := SkipSpace(s);
    t != [] && t[0] == token
  }

  function Behind(s: string): (r: string)
    ensures SkipSpace(s) != [] ==> |r| < |s|
  {
    var t := SkipSpace(s);
    if t == [] then [] else t[1..]
  }

  predicate Plain(c: char) {
    ' ' <= c < 128 as char && c != '"' && c != '\\'
  }

  /** The characters up to the closing quote, and what follows it. */
  function ReadText(s: string): (r: Option<(string, string)>)
    ensures r.Some? ==> |r.value.1| < |s|
  {
    if s == [] then None
    else if s[0] == '"' then Some(("", s[1..]))
    else if !Plain(s[0]) then None
    else match ReadText(s[1..])
      case None => None
      case Some(p) => Some(([s[0]] + p.0, p.1))
  }

  predicate IsDigit(c: char) {
    '0' <= c <= '9'
  }

  function ReadDigits(s: string, acc: nat): (r: (nat, string))
    ensures |r.1| <= |s|
  {
    if s == [] || !IsDigit(s[0]) then (acc, s)
    else ReadDigits(s[1..], 10 * acc + (s[0] as int - '0' as int))
  }

  /** A leading zero stands alone. */
  function ReadNat(s: string): (r: Option<(nat, string)>)
    ensures r.Some? ==> |r.value.1| < |s|
  {
    if s == [] || !IsDigit(s[0]) then None
    else if s[0] == '0' then Some((0, s[1..]))
    else Some(ReadDigits(s[1..], s[0] as int - '0' as int))
  }

  function ReadValue(s: string): (r: Option<(Value, string)>)
    ensures r.Some? ==> |r.value.1| < |s|
  {
    if s == [] then None
    else if s[0] == '"' then
      match ReadText(s[1..])
      case None => None
      case Some(p) => Some((Text(p.0), p.1))
    else if s[0] == '-' then
      match ReadNat(s[1..])
      case None => None
      case Some(p) => Some((Number(-(p.0 as int)), p.1))
    else
      match ReadNat(s)
      case None => None
      case Some(p) => Some((Number(p.0), p.1))
  }

  function ReadMember(s: string): (r: Option<((string, Value), string)>)
    ensures r.Some? ==> |r.value.1| < |s|
  {
    if !Next(s, '"') then None
    else match ReadText(Behind(s))
      case None => None
      case Some(name) =>
        if !Next(name.1, ':') then None
        else match ReadValue(SkipSpace(Behind(name.1)))
          case None => None
          case Some(v) => Some(((name.0, v.0), v.1))
  }

  function ReadRest(s: string): Option<Members>
    decreases |s|
  {
    match ReadMember(s)
    case None => None
    case Some(m) =>
      if Next(m.1, '}') then (if SkipSpace(Behind(m.1)) == [] then Some([m.0]) else None)
      else if !Next(m.1, ',') then None
      else match ReadRest(Behind(m.1))
        case None => None
        case Some(ms) => Some([m.0] + ms)
  }

  function Read(s: string): Option<Members> {
    if !Next(s, '{') then None else ReadRest(Behind(s))
  }

  /** A name given twice keeps its last value. */
  function Lookup(ms: Members, name: string): Option<Value> {
    if ms == [] then None
    else if ms[|ms| - 1].0 == name then Some(ms[|ms| - 1].1)
    else Lookup(ms[..|ms| - 1], name)
  }

  // ---------- Round trip ----------

  predicate PlainText(s: string) {
    forall i :: 0 <= i < |s| ==> Plain(s[i])
  }

  predicate Writable(m: (string, Value)) {
    PlainText(m.0) && (m.1.Text? ==> PlainText(m.1.text))
  }

  lemma {:induction false} TextReads(s: string, tail: string)
    requires PlainText(s)
    ensures ReadText(s + ['"'] + tail) == Some((s, tail))
  {
    var whole := s + ['"'] + tail;
    if s == "" {
      assert whole[1..] == tail;
    } else {
      assert Plain(s[0]) && whole[1..] == s[1..] + ['"'] + tail;
      TextReads(s[1..], tail);
      assert [s[0]] + s[1..] == s;
    }
  }

  predicate EndsDigits(tail: string) {
    tail == [] || !IsDigit(tail[0])
  }

  lemma {:induction false} DigitsShape(n: nat)
    ensures Digits(n) != [] && IsDigit(Digits(n)[0]) && (Digits(n)[0] == '0' <==> n == 0)
    ensures n == 0 ==> Digits(n) == ['0']
  {
    if n >= 10 {
      DigitsShape(n / 10);
    }
  }

  /** The number whose decimal form is that of `acc` and then that of `n`. */
  function Joined(acc: nat, n: nat): nat {
    if n < 10 then 10 * acc + n else 10 * Joined(acc, n / 10) + n % 10
  }

  lemma {:induction false} JoinedToNothing(n: nat)
    ensures Joined(0, n) == n
  {
    if n >= 10 {
      JoinedToNothing(n / 10);
    }
  }

  /** Reading digits goes on from the number read so far. */
  lemma {:induction false} DigitsReadOn(n: nat, tail: string, acc: nat)
    ensures ReadDigits(Digits(n) + tail, acc) == ReadDigits(tail, Joined(acc, n))
  {
    if n < 10 {
      OneDigitReads(n, tail, acc);
    } else {
      var head, last := Digits(n / 10), DigitChar(n % 10);
      DigitsReadOn(n / 10, [last] + tail, acc);
      OneDigitReads(n % 10, tail, Joined(acc, n / 10));
      hide ReadDigits, DigitChar;
      assert Digits(n) + tail == head + ([last] + tail);
    }
  }

  lemma DigitsRead(n: nat, tail: string)
    requires EndsDigits(tail)
    ensures ReadDigits(Digits(n) + tail, 0) == (n, tail)
  {
    DigitsReadOn(n, tail, 0);
    JoinedToNothing(n);
  }

  lemma OneDigitReads(d: nat, tail: string, acc: nat)
    requires d < 10
    ensures ReadDigits([DigitChar(d)] + tail, acc) == ReadDigits(tail, 10 * acc + d)
  {
    assert ([DigitChar(d)] + tail)[1..] == tail;
  }

  lemma NatReads(n: nat, tail: string)
    requires EndsDigits(tail)
    ensures ReadNat(Digits(n) + tail) == Some((n, tail))
  {
    DigitsShape(n);
    DigitsRead(n, tail);
    SameNat(Digits(n), tail, n);
  }

  lemma SameNat(digits: string, tail: string, n: nat)
    requires digits != [] && IsDigit(digits[0]) && (digits[0] == '0' <==> n == 0) && (n == 0 ==> digits == ['0'])
    requires ReadDigits(digits + tail, 0) == (n, tail)
    ensures ReadNat(digits + tail) == Some((n, tail))
  {
    var s := digits + tail;
    assert s[0] == digits[0];
    if n == 0 {
      assert s[1..] == tail;
    }
  }

  lemma TextValueReads(t: string, tail: string)
    requires PlainText(t)
    ensures ReadValue(Quoted(t) + tail) == Some((Text(t), tail))
  {
    var s := Quoted(t) + tail;
    TextReads(t, tail);
    hide ReadText, PlainText;
    assert s[0] == '"' && s[1..] == t + ['"'] + tail;
  }

  lemma NegativeReads(n: nat, tail: string)
    requires EndsDigits(tail)
    ensures ReadValue("-" + Digits(n) + tail) == Some((Number(-(n as int)), tail))
  {
    var s := "-" + Digits(n) + tail;
    NatReads(n, tail);
    hide ReadNat, Digits;
    assert s[0] == '-' && s[1..] == Digits(n) + tail;
  }

  lemma NumberReads(n: nat, tail: string)
    requires EndsDigits(tail)
    ensures ReadValue(Digits(n) + tail) == Some((Number(n), tail))
  {
    NatReads(n, tail);
    DigitsShape(n);
    hide ReadNat, Digits;
    assert (Digits(n) + tail)[0] == Digits(n)[0];
  }

  lemma ValueReads(v: Value, tail: string)
    requires v.Text? ==> PlainText(v.text)
    requires EndsDigits(tail)
    ensures ReadValue(Written(v) + tail) == Some((v, tail))
  {
    hide ReadValue, Digits, Quoted, PlainText;
    match v {
      case Text(t) => TextValueReads(t, tail);
      case Number(n) => if n < 0 { NegativeReads(-n, tail); } else { NumberReads(n, tail); }
    }
  }

  lemma WrittenShape(v: Value)
    ensures Written(v) != [] && !IsSpace(Written(v)[0])
  {
    if v.Number? {
      DigitsShape(if v.number < 0 then -v.number else v.number);
    }
  }

  lemma MemberReads(m: (string, Value), tail: string)
    requires Writable(m) && EndsDigits(tail)
    ensures ReadMember(Member(m) + tail) == Some((m, tail))
  {
    hide PlainText, Written, ReadText, ReadValue;
    var s, value := Member(m) + tail, Written(m.1) + tail;
    WrittenShape(m.1);
    TextReads(m.0, [':'] + value);
    ValueReads(m.1, tail);
    assert s[0] == '"' && s[1..] == m.0 + ['"'] + ([':'] + value);
    assert ([':'] + value)[1..] == value;
    assert SkipSpace(value) == value;
  }

  predicate AllWritable(ms: Members) {
    forall i :: 0 <= i < |ms| ==> Writable(ms[i])
  }

  lemma {:induction false} RestReads(ms: Members)
    requires ms != [] && AllWritable(ms)
    ensures ReadRest(Rest(ms)) == Some(ms)
  {
    hide Writable;
    if |ms| == 1 {
      LastReads(ms[0]);
      assert ms == [ms[0]];
    } else {
      RestReads(ms[1..]);
      MoreReads(ms[0], ms[1..], Rest(ms[1..]));
      assert [ms[0]] + ms[1..] == ms;
    }
  }

  lemma LastReads(m: (string, Value))
    requires Writable(m)
    ensures ReadRest(Member(m) + ['}']) == Some([m])
  {
    MemberReads(m, ['}']);
    hide ReadMember, Member;
    assert ['}'][1..] == [];
  }

  lemma MoreReads(m: (string, Value), ms: Members, rest: string)
    requires Writable(m) && ReadRest(rest) == Some(ms)
    ensures ReadRest(Member(m) + ([','] + rest)) == Some([m] + ms)
  {
    MemberReads(m, [','] + rest);
    hide ReadMember, Member, Writable;
    assert ([','] + rest)[1..] == rest;
    assert Next([','] + rest, ',') && Behind([','] + rest) == rest;
  }

  /** Reading undoes writing. */
  lemma ReadUndoesWrite(ms: Members)
    requires ms != [] && AllWritable(ms)
    ensures Read(Object(ms)) == Some(ms)
  {
    RestReads(ms);
    hide ReadRest, Rest;
    assert Object(ms)[1..] == Rest(ms);
  }

  function Power10(k: nat): nat {
    if k == 0 then 1 else 10 * Power10(k - 1)
  }

  /** A number below a power of ten has no more digits than the power. */
  lemma {:induction false} DigitsAreFew(n: nat, k: nat)
    requires k >= 1 && n < Power10(k)
    ensures |Digits(n)| <= k
  {
    if n >= 10 {
      DigitsAreFew(n / 10, k - 1);
    }
  }
}
