/** ASCII text as bytes and back. */
module AsciiText {
  import opened Wrappers
  import FlatJson

  type Byte = x: int | 0 <= x < 256

  type Bytes = seq<Byte>

  predicate Ascii(s: string) {
    forall i :: 0 <= i < |s| ==> s[i] < 128 as char
  }

  function AsBytes(s: string): (b: Bytes)
    requires Ascii(s)
    ensures |b| == |s|
  {
    seq(|s|, i requires 0 <= i < |s| => s[i] as int)
  }

  function AsText(b: Bytes): Option<string> {
    if forall i :: 0 <= i < |b| ==> b[i] < 128 then Some(seq(|b|, i requires 0 <= i < |b| => b[i] as char)) else None
  }

  lemma AsciiJoins(a: string, b: string)
    ensures Ascii(a + b) <==> Ascii(a) && Ascii(b)
  {
    if Ascii(a + b) {
      assert forall i :: 0 <= i < |a| ==> a[i] == (a + b)[i];
      assert forall i :: 0 <= i < |b| ==> b[i] == (a + b)[|a| + i];
    }
  }

  lemma OneIsAscii(c: char)
    requires c < 128 as char
    ensures Ascii([c])
  {
  }

  lemma TextOfBytes(s: string)
    requires Ascii(s)
    ensures AsText(AsBytes(s)) == Some(s)
  {
    var b := AsBytes(s);
    assert forall i :: 0 <= i < |s| ==> b[i] == s[i] as int;
    assert AsText(b).Some? && AsText(b).value == s;
  }

  lemma {:induction false} DigitsAreAscii(n: nat)
    ensures Ascii(FlatJson.Digits(n))
    ensures forall i :: 0 <= i < |FlatJson.Digits(n)| ==> '0' <= FlatJson.Digits(n)[i] <= '9'
  {
    if n >= 10 {
      DigitsAreAscii(n / 10);
    }
  }
}
