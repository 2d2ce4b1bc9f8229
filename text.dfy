/** How JavaScript renders an integral number inside a template literal
    (`${n}`): an optional minus sign followed by decimal digits, with no
    leading zeros. The parser beside it is the rendering's inverse. */
module Text {
  import opened Wrappers

  predicate IsDigit(c: char)
  {
    '0' <= c <= '9'
  }

  predicate AllDigits(s: string)
  {
    forall i :: 0 <= i < |s| ==> IsDigit(s[i])
  }

  function DigitChar(d: nat): (c: char)
    requires d < 10
    ensures IsDigit(c) && (c - '0') as int == d
  {
    "0123456789"[d]
  }

  /** Decimal digits of `n`, most significant first. */
  function NatText(n: nat): (s: string)
    ensures |s| > 0 && AllDigits(s)
    ensures |s| > 1 ==> s[0] != '0'
  {
    if n < 10 then [DigitChar(n)] else NatText(n / 10) + [DigitChar(n % 10)]
  }

  /** `${n}` for an integral number `n`. */
  function IntText(n: int): (s: string)
    ensures |s| > 0
  {
    if n < 0 then ['-'] + NatText(-n) else NatText(n)
  }

  function ParseDigits(s: string): nat
    requires |s| > 0 && AllDigits(s)
  {
    if |s| == 1 then (s[0] - '0') as nat
    else ParseDigits(s[..|s| - 1]) * 10 + (s[|s| - 1] - '0') as nat
  }

  /** Reads back a non-empty run of decimal digits. */
  function ParseNat(s: string): Option<int>
  {
    if |s| > 0 && AllDigits(s) then Some(ParseDigits(s)) else None
  }

  /** Reads back an optionally signed decimal integer. */
  function ParseInt(s: string): Option<int>
  {
    if |s| > 0 && s[0] == '-' then
      match ParseNat(s[1..])
      case Some(d) => Some(0 - d)
      case None => None
    else ParseNat(s)
  }

  lemma {:induction false} NatTextRoundTrip(n: nat)
    ensures ParseDigits(NatText(n)) == n
    decreases n
  {
    if n >= 10 {
      var s := NatText(n);
      assert s[..|s| - 1] == NatText(n / 10);
      NatTextRoundTrip(n / 10);
    }
  }

  lemma NegativeTextRoundTrip(n: int)
    requires n < 0
    ensures ParseInt(IntText(n)) == Some(n)
  {
    var m: nat := -n;
    var t := NatText(m);
    NatTextRoundTrip(m);
    assert ParseNat(t) == Some(m);
    var s := IntText(n);
    assert s == ['-'] + t;
    assert s[1..] == t;
  }

  lemma NonNegativeTextRoundTrip(n: int)
    requires n >= 0
    ensures ParseInt(IntText(n)) == Some(n)
  {
    var t := IntText(n);
    assert t == NatText(n);
    assert t[0] != '-';
    NatTextRoundTrip(n);
  }

  /** Rendering loses nothing: the text reads back as the same integer. */
  lemma IntTextRoundTrip(n: int)
    ensures ParseInt(IntText(n)) == Some(n)
  {
    if n < 0 {
      NegativeTextRoundTrip(n);
    } else {
      NonNegativeTextRoundTrip(n);
    }
  }

  /** The rendering holds no blank: only a sign and digits. */
  lemma IntTextCharset(n: int)
    ensures forall i :: 0 <= i < |IntText(n)| ==> IntText(n)[i] == '-' || IsDigit(IntText(n)[i])
    ensures ' ' !in IntText(n)
  {
    var t := NatText(if n < 0 then -n else n);
    assert AllDigits(t);
    if n < 0 {
      assert IntText(n) == "-" + t;
      assert forall i :: 1 <= i < |IntText(n)| ==> IntText(n)[i] == t[i - 1];
    }
  }
}
