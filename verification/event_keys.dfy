/** Event keys: the generator formats its counter as `"event-" + n` in
    decimal. This module gives the formatting, a parser that inverts it, and
    the injectivity that makes generated keys unique. */
module EventKeys {
  import opened Wrappers

  const Prefix: string := "event-"

  predicate IsDigit(c: char) {
    '0' <= c <= '9'
  }

  predicate AllDigits(s: string) {
    forall i :: 0 <= i < |s| ==> IsDigit(s[i])
  }

  function DigitChar(d: nat): (c: char)
    requires d < 10
    ensures IsDigit(c)
  {
    (('0' as int) + d) as char
  }

  function DigitValue(c: char): (d: nat)
    requires IsDigit(c)
    ensures d < 10
  {
    (c as int) - ('0' as int)
  }

  /** The decimal rendering of a number, as a template literal produces it:
      no sign, no leading zeros. */
  function Decimal(n: nat): (s: string)
    ensures |s| >= 1 && AllDigits(s)
    ensures s[0] == '0' ==> n == 0 && s == "0"
    decreases n
  {
    if n < 10 then [DigitChar(n)] else Decimal(n / 10) + [DigitChar(n % 10)]
  }

  /** The value of a string of decimal digits. */
  function ParseDecimal(s: string): nat
    requires AllDigits(s)
    decreases |s|
  {
    if |s| == 0 then 0 else ParseDecimal(s[..|s| - 1]) * 10 + DigitValue(s[|s| - 1])
  }

  lemma {:induction false} ParseDecimalOfDecimal(n: nat)
    ensures ParseDecimal(Decimal(n)) == n
    decreases n
  {
    if n >= 10 {
      var s := Decimal(n);
      assert s[..|s| - 1] == Decimal(n / 10);
      ParseDecimalOfDecimal(n / 10);
    }
  }

  /** The key the generator hands out for counter value `n`. */
  function EventKey(n: nat): (k: string)
    ensures |k| > |Prefix| && k[..|Prefix|] == Prefix
    ensures AllDigits(k[|Prefix|..])
  {
    Prefix + Decimal(n)
  }

  /** The counter value a key was generated from, if it has the generator's
      shape. */
  function KeySerial(k: string): Option<nat> {
    if |k| > |Prefix| && k[..|Prefix|] == Prefix && AllDigits(k[|Prefix|..])
    then Some(ParseDecimal(k[|Prefix|..]))
    else None
  }

  lemma KeySerialOfEventKey(n: nat)
    ensures KeySerial(EventKey(n)) == Some(n)
  {
    assert EventKey(n)[|Prefix|..] == Decimal(n);
    ParseDecimalOfDecimal(n);
  }

  /** Distinct counter values give distinct keys. */
  lemma EventKeyInjective(m: nat, n: nat)
    ensures EventKey(m) == EventKey(n) <==> m == n
  {
    KeySerialOfEventKey(m);
    KeySerialOfEventKey(n);
  }

  /** The six keys of the seed data are the ones the generator would have
      produced for 1..6, so a counter starting at 7 never repeats them. */
  lemma SeedKeysAreGenerated()
    ensures EventKey(1) == "event-1" && EventKey(2) == "event-2"
    ensures EventKey(3) == "event-3" && EventKey(4) == "event-4"
    ensures EventKey(5) == "event-5" && EventKey(6) == "event-6"
    ensures EventKey(7) == "event-7"
  {
  }
}
