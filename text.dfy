/** The two JavaScript string operations the listing relies on:
    Number.prototype.toString() on a non-negative integer id below 2^53
    (where a number holds the id exactly and is written in plain digits),
    and String.prototype.padStart with a one-character fill. */
module Text {

  /** The character of the decimal digit d. */
  function DigitChar(d: nat): (c: char)
    requires d < 10
    ensures '0' <= c <= '9'
  {
    (48 + d) as char
  }

  /** The value of a decimal digit character (the inverse of DigitChar). */
  function DigitValue(c: char): (d: nat)
    requires '0' <= c <= '9'
    ensures d < 10 && DigitChar(d) == c
  {
    c as int - 48
  }

  predicate IsDigits(s: string)
  {
    forall i :: 0 <= i < |s| ==> '0' <= s[i] <= '9'
  }

  /** n.toString(): base-10 digits, most significant first, no leading zero. */
  function Decimal(n: nat): (r: string)
    ensures |r| >= 1 && IsDigits(r)
    ensures |r| == 1 <==> n < 10
    ensures r[0] == '0' <==> n == 0
  {
    if n < 10 then [DigitChar(n)] else Decimal(n / 10) + [DigitChar(n % 10)]
  }

  /** The value of a string of decimal digits; leading zeros are allowed. */
  function ParseDecimal(s: string): nat
    requires IsDigits(s)
  {
    if s == [] then 0 else ParseDecimal(s[..|s| - 1]) * 10 + DigitValue(s[|s| - 1])
  }

  lemma {:induction false} ParseDecimalOfDecimal(n: nat)
    ensures ParseDecimal(Decimal(n)) == n
  {
    if n >= 10 {
      var s := Decimal(n);
      assert s[..|s| - 1] == Decimal(n / 10);
      ParseDecimalOfDecimal(n / 10);
    }
  }

  lemma {:induction false} ParseDecimalOfZeros(z: string)
    requires forall i :: 0 <= i < |z| ==> z[i] == '0'
    ensures IsDigits(z) && ParseDecimal(z) == 0
  {
    if z != [] {
      ParseDecimalOfZeros(z[..|z| - 1]);
    }
  }

  /** Leading zeros do not change the value of a digit string. */
  lemma {:induction false} ParseDecimalSkipsZeros(z: string, s: string)
    requires forall i :: 0 <= i < |z| ==> z[i] == '0'
    requires IsDigits(s)
    ensures IsDigits(z + s) && ParseDecimal(z + s) == ParseDecimal(s)
  {
    ParseDecimalOfZeros(z);
    if s == [] {
      assert z + s == z;
    } else {
      var w := z + s;
      assert w[..|w| - 1] == z + s[..|s| - 1];
      ParseDecimalSkipsZeros(z, s[..|s| - 1]);
    }
  }

  /** n copies of c. */
  function Repeat(c: char, n: nat): (r: string)
    ensures |r| == n && forall i :: 0 <= i < n ==> r[i] == c
  {
    if n == 0 then [] else [c] + Repeat(c, n - 1)
  }

  /** s.padStart(width, fill) for a one-character fill string: s
      unchanged when it already has width characters, otherwise fill
      repeated on the left up to width characters. */
  function PadStart(s: string, width: nat, fill: char): (r: string)
    ensures |r| == if |s| < width then width else |s|
    ensures r[|r| - |s|..] == s
    ensures forall i :: 0 <= i < |r| - |s| ==> r[i] == fill
  {
    if |s| < width then
      var z := Repeat(fill, width - |s|);
      assert (z + s)[|z|..] == s;
      z + s
    else s
  }

  /** The key GET /api/rifa gives a row: id.toString().padStart(2, '0'). */
  function ListKey(id: nat): (k: string)
    ensures |k| >= 2 && IsDigits(k)
    ensures id < 10 ==> k == ['0', DigitChar(id)]
    ensures id >= 10 ==> k == Decimal(id)
  {
    var s := Decimal(id);
    var k := PadStart(s, 2, '0');
    assert forall i :: |k| - |s| <= i < |k| ==> k[i] == s[i - (|k| - |s|)];
    k
  }

  /** Reading a key back as a decimal number gives its id. */
  lemma {:induction false} ListKeyRoundTrip(id: nat)
    ensures ParseDecimal(ListKey(id)) == id
  {
    var s := Decimal(id);
    var k := ListKey(id);
    var z := k[..|k| - |s|];
    assert k == z + s;
    ParseDecimalSkipsZeros(z, s);
    ParseDecimalOfDecimal(id);
  }

  /** Distinct ids never share a listing key. */
  lemma ListKeyInjective(a: nat, b: nat)
    requires a != b
    ensures ListKey(a) != ListKey(b)
  {
    ListKeyRoundTrip(a);
    ListKeyRoundTrip(b);
  }
}
