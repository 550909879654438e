/** Decimal numbers and character searches in strings, as Go's strconv and strings packages have them. */
module Decimals {
  import opened Bytes

  function DigitValue(c: char): nat
    requires '0' <= c <= '9'
  {
    (c as int) - ('0' as int)
  }

  function DigitChar(d: nat): (c: char)
    requires d < 10
    ensures '0' <= c <= '9' && DigitValue(c) == d
  {
    (d + '0' as int) as char
  }

  predicate DigitsOnly(s: string) {
    forall i :: 0 <= i < |s| ==> '0' <= s[i] <= '9'
  }

  predicate AllDigits(s: string) {
    s != "" && DigitsOnly(s)
  }

  /** The number that digits, behind a sign or not, stand for; there is no limit on its size here. */
  function Atoi(s: string): Option<int> {
    if AllDigits(s) then Some(Digits(s))
    else if s != "" && s[0] == '+' && AllDigits(s[1..]) then Some(Digits(s[1..]))
    else if s != "" && s[0] == '-' && AllDigits(s[1..]) then Some(-(Digits(s[1..]) as int))
    else None
  }

  function Digits(s: string): nat
    requires DigitsOnly(s)
  {
    if s == "" then 0 else 10 * Digits(s[..|s| - 1]) + DigitValue(s[|s| - 1])
  }

  function Decimal(n: nat): (s: string)
    ensures AllDigits(s)
  {
    if n < 10 then [DigitChar(n)] else Decimal(n / 10) + [DigitChar(n % 10)]
  }

  lemma {:induction false} AtoiOfDecimal(n: nat)
    ensures Atoi(Decimal(n)) == Some(n)
  {
    var s := Decimal(n);
    if n < 10 {
      assert s[..0] == "" && Digits("") == 0;
    } else {
      AtoiOfDecimal(n / 10);
      assert s[..|s| - 1] == Decimal(n / 10);
    }
  }

  /** A sign in front counts. */
  lemma AtoiSigned(n: nat)
    ensures Atoi("+" + Decimal(n)) == Some(n) && Atoi("-" + Decimal(n)) == Some(-(n as int))
  {
    hide Digits, Decimal;
    AtoiOfDecimal(n);
    var s := Decimal(n);
    assert ("+" + s)[1..] == s && ("-" + s)[1..] == s;
    assert ("+" + s)[0] == '+' && ("-" + s)[0] == '-';
  }

  /** The place of the first character of s that is in chars, the length if there is none. */
  function IndexAny(s: string, chars: string): (i: nat)
    ensures i <= |s| && (forall k :: 0 <= k < i ==> s[k] !in chars) && (i < |s| ==> s[i] in chars)
  {
    if s == "" || s[0] in chars then 0 else IndexAny(s[1..], chars) + 1
  }

  lemma IndexAfter(p: string, c: char, s: string, chars: string)
    requires (forall x <- p :: x !in chars) && c in chars
    ensures IndexAny(p + [c] + s, chars) == |p|
  {
    var t := p + [c] + s;
    var i := IndexAny(t, chars);
    assert forall k :: 0 <= k < |p| ==> t[k] == p[k];
    assert t[|p|] == c;
  }

  lemma IndexNone(s: string, chars: string)
    requires forall x <- s :: x !in chars
    ensures IndexAny(s, chars) == |s|
  {
  }
}
