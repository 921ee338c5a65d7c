/**
 * Decimal text of integers, as Java's `Integer.toString` and string concatenation
 * produce it: the path `"./users/" + id + "/" + name` and the login challenge number
 * are both built with it. `ParseInt` reads such text back as `Integer.parseInt`
 * does, and is the reference the conversion is proved against.
 */
module Decimal {

  function DigitChar(d: nat): (c: char)
    requires d < 10
    ensures '0' <= c <= '9'
    ensures c as int - '0' as int == d
  {
    "0123456789"[d]
  }

  function NatToString(n: nat): (s: string)
    decreases n
  {
    if n < 10 then [DigitChar(n)] else NatToString(n / 10) + [DigitChar(n % 10)]
  }

  /** The value of a string of decimal digits, most significant first. */
  ghost function ParseDigits(s: string): int
  {
    if s == [] then 0 else ParseDigits(s[..|s| - 1]) * 10 + (s[|s| - 1] as int - '0' as int)
  }

  /** Integer.parseInt on well-formed text: an optional '-' and then digits. */
  ghost function ParseInt(s: string): int
  {
    if |s| > 0 && s[0] == '-' then -ParseDigits(s[1..]) else ParseDigits(s)
  }

  /** Digits only, never empty: the text of a natural number has no separator in it. */
  lemma {:induction false} NatToStringDigits(n: nat)
    ensures |NatToString(n)| >= 1
    ensures forall i :: 0 <= i < |NatToString(n)| ==> '0' <= NatToString(n)[i] <= '9'
    decreases n
  {
    if n >= 10 {
      NatToStringDigits(n / 10);
    }
  }

  /** Reading the digits of a natural number back gives the number. */
  lemma {:induction false} NatToStringParses(n: nat)
    ensures ParseDigits(NatToString(n)) == n
    decreases n
  {
    var s := NatToString(n);
    if n < 10 {
      assert s[..0] == [];
    } else {
      NatToStringParses(n / 10);
      assert s[..|s| - 1] == NatToString(n / 10);
    }
  }

  /** Integer.toString: a '-' exactly for a negative number, and the text reads back as the number. */
  function IntToString(i: int): (s: string)
    ensures |s| >= 1 && (s[0] == '-' <==> i < 0)
    ensures ParseInt(s) == i
  {
    var n: nat := if i < 0 then -i else i;
    NatToStringDigits(n);
    NatToStringParses(n);
    if i < 0 then
      var s := "-" + NatToString(n);
      assert s[1..] == NatToString(n);
      s
    else NatToString(n)
  }

  /** The decimal text of an integer never holds a '/', so it cannot swallow a path separator. */
  lemma IntToStringHasNoSlash(i: int)
    ensures '/' !in IntToString(i)
  {
    var n: nat := if i < 0 then -i else i;
    NatToStringDigits(n);
    if i < 0 {
      assert IntToString(i) == "-" + NatToString(n);
      forall k | 0 <= k < |IntToString(i)| ensures IntToString(i)[k] != '/' {
        if k > 0 {
          assert IntToString(i)[k] == NatToString(n)[k - 1];
        }
      }
    }
  }

  /** Distinct integers have distinct decimal text. */
  lemma IntToStringInjective(a: int, b: int)
    requires IntToString(a) == IntToString(b)
    ensures a == b
  {
    assert a == ParseInt(IntToString(a)) == ParseInt(IntToString(b)) == b;
  }
}
