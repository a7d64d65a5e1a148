/** Substring search and decimal numbers, as the text formats use them. */
module Text {
  import opened Bytes

  // ---- substring search ----

  /** The position of the first occurrence of `needle` in `s`. */
  function Find(s: string, needle: string): (p: Option<nat>)
    requires needle != ""
    ensures p.Some? ==> p.value + |needle| <= |s|
  {
    if |s| < |needle| then None
    else if needle <= s then Some(0)
    else Later(Find(s[1..], needle), 1)
  }

  function Later(p: Option<nat>, k: nat): Option<nat> {
    match p case Some(n) => Some(n + k) case None => None
  }

  lemma {:induction false} FindIsFirst(s: string, needle: string)
    requires needle != ""
    ensures match Find(s, needle)
            case Some(p) => needle <= s[p..] && forall q :: 0 <= q < p ==> !(needle <= s[q..])
            case None => forall q :: 0 <= q <= |s| ==> !(needle <= s[q..])
  {
    assert s[0..] == s;
    if |s| >= |needle| && !(needle <= s) {
      FindIsFirst(s[1..], needle);
      assert forall q :: 1 <= q <= |s| ==> s[q..] == s[1..][q - 1..];
    }
  }

  lemma FindAtFront(s: string, needle: string)
    requires needle != ""
    ensures Find(s, needle) == Some(0) <==> needle <= s
  {
  }

  lemma FindUnique(s: string, needle: string, p: nat)
    requires needle != "" && p <= |s| && needle <= s[p..]
    requires forall q :: 0 <= q < p ==> !(needle <= s[q..])
    ensures Find(s, needle) == Some(p)
  {
    FindIsFirst(s, needle);
  }

  predicate Lacks(s: string, c: char) {
    forall i :: 0 <= i < |s| ==> s[i] != c
  }

  /** Text without the needle's first character is passed over. */
  lemma {:induction false} FindPastText(text: string, s: string, needle: string)
    requires needle != "" && Lacks(text, needle[0])
    ensures Find(text + s, needle) == Later(Find(s, needle), |text|)
  {
    if text == "" {
      assert text + s == s;
    } else {
      assert (text + s)[1..] == text[1..] + s && (text + s)[0] == text[0];
      FindPastText(text[1..], s, needle);
      if |text + s| < |needle| {
        assert Find(s, needle) == None;
      }
    }
  }

  // ---- decimal numbers ----

  predicate IsDigit(c: char) {
    '0' <= c <= '9'
  }

  predicate AllDigits(s: string) {
    forall i :: 0 <= i < |s| ==> IsDigit(s[i])
  }

  function Digit(d: nat): (c: char)
    requires d < 10
    ensures IsDigit(c)
  {
    '0' + d as char
  }

  function DigitValue(c: char): nat
    requires IsDigit(c)
  {
    (c - '0') as nat
  }

  function Decimal(n: nat): (s: string)
    ensures s != "" && AllDigits(s)
  {
    if n < 10 then [Digit(n)] else Decimal(n / 10) + [Digit(n % 10)]
  }

  function NumberOf(s: string): nat
    requires AllDigits(s)
  {
    if s == "" then 0 else NumberOf(s[..|s| - 1]) * 10 + DigitValue(s[|s| - 1])
  }

  lemma {:induction false} DecimalReadBack(n: nat)
    ensures NumberOf(Decimal(n)) == n
  {
    var s := Decimal(n);
    if n < 10 {
      assert s[..|s| - 1] == "";
    } else {
      assert s[..|s| - 1] == Decimal(n / 10);
      DecimalReadBack(n / 10);
    }
  }

  /** The digits, in order. */
  lemma DigitsInOrder(d: nat)
    requires d < 10
    ensures Digit(d) == "0123456789"[d] && DigitValue("0123456789"[d]) == d
  {
  }

  /** A leading zero changes nothing. */
  lemma {:induction false} LeadingZero(s: string)
    requires AllDigits(s)
    ensures NumberOf("0" + s) == NumberOf(s)
  {
    var t := "0" + s;
    if s != "" {
      LeadingZero(s[..|s| - 1]);
      assert t[..|t| - 1] == "0" + s[..|s| - 1];
    } else {
      assert t[..|t| - 1] == "";
    }
  }

  /** Reads all of `s` as an unsigned number below `limit`; no sign, no blanks, no empty text. */
  function ParseUnsigned(s: string, limit: nat): Option<nat> {
    if s != "" && AllDigits(s) && NumberOf(s) < limit then Some(NumberOf(s)) else None
  }

  /** Reads all of `s` as a number in `[-limit, limit)`, with an optional minus sign. */
  function ParseSigned(s: string, limit: nat): Option<int> {
    if s != "" && s[0] == '-' then
      match ParseUnsigned(s[1..], limit + 1) case Some(n) => Some(0 - n) case None => None
    else ParseUnsigned(s, limit)
  }

  function SignedDecimal(n: int): string {
    if n < 0 then "-" + Decimal(-n) else Decimal(n)
  }

  /** Exactly what is read as a number: digits, not none, behind an optional minus, in the range. */
  lemma SignedIff(s: string, limit: nat)
    ensures var digits := if s != "" && s[0] == '-' then s[1..] else s;
            var sign := if s != "" && s[0] == '-' then -1 else 1;
            && (ParseSigned(s, limit).Some? <==>
                  && digits != "" && AllDigits(digits)
                  && (if sign < 0 then NumberOf(digits) <= limit else NumberOf(digits) < limit))
            && (ParseSigned(s, limit).Some? ==> ParseSigned(s, limit).value == sign * NumberOf(digits))
  {
  }

  lemma SignedReadBack(n: int, limit: nat)
    requires 0 - limit <= n < limit
    ensures ParseSigned(SignedDecimal(n), limit) == Some(n)
  {
    if n < 0 {
      DecimalReadBack(-n);
      assert SignedDecimal(n)[1..] == Decimal(-n);
    } else {
      DecimalReadBack(n);
      assert IsDigit(SignedDecimal(n)[0]);
    }
  }
}
