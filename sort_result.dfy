/**
 * The outcome of `sort` and `sort_by`: `Result<(), String>`. The only
 * failure is a length that is not a power of two, and its message is
 * `format!("The length of x is not a power of two. (x.len(): {})", x.len())`.
 */
module SortResult {

  /** `Result<(), String>`: success carries nothing, failure a message. */
  datatype Result = Ok | Err(message: string)

  /** The fixed text in front of the length in the failure message. */
  const Prefix: string := "The length of x is not a power of two. (x.len(): "

  /** The decimal digit for d. */
  function Digit(d: nat): char
    requires d < 10
  {
    "0123456789"[d]
  }

  /** The value of a decimal digit character, if it is one. */
  function DigitValue(c: char): nat
  {
    if '0' <= c <= '9' then (c as int - '0' as int) as nat else 0
  }

  /** `{}` applied to a `usize`: the decimal rendering, no leading zeros. */
  function NatToString(n: nat): (r: string)
    ensures |r| >= 1
    ensures forall i :: 0 <= i < |r| ==> '0' <= r[i] <= '9'
    ensures |r| > 1 ==> r[0] != '0'
  {
    if n < 10 then [Digit(n)] else NatToString(n / 10) + [Digit(n % 10)]
  }

  /** Reads a string of decimal digits back as a number. */
  function StringToNat(s: string): nat
  {
    if s == [] then 0 else 10 * StringToNat(s[..|s| - 1]) + DigitValue(s[|s| - 1])
  }

  /** Rendering then reading gives the number back. */
  lemma {:induction false} StringToNatOfNatToString(n: nat)
    ensures StringToNat(NatToString(n)) == n
  {
    var r := NatToString(n);
    if n < 10 {
      assert r[..0] == [];
    } else {
      StringToNatOfNatToString(n / 10);
      assert r[..|r| - 1] == NatToString(n / 10);
    }
  }

  /** The failure message reported for a sequence of length n. */
  function LengthMessage(n: nat): string {
    Prefix + NatToString(n) + ")"
  }

  /**
   * The message carries the observed length: it starts with the fixed
   * text, ends with ")", and the digits in between read back as n.
   */
  lemma MessageCarriesLength(n: nat)
    ensures var m := LengthMessage(n);
      && |m| > |Prefix| + 1
      && m[..|Prefix|] == Prefix
      && m[|m| - 1] == ')'
      && StringToNat(m[|Prefix|..|m| - 1]) == n
  {
    var m := LengthMessage(n);
    assert m[|Prefix|..|m| - 1] == NatToString(n);
    StringToNatOfNatToString(n);
  }

  /** Distinct lengths give distinct messages. */
  lemma MessageInjective(n1: nat, n2: nat)
    requires LengthMessage(n1) == LengthMessage(n2)
    ensures n1 == n2
  {
    MessageCarriesLength(n1);
    MessageCarriesLength(n2);
  }
}
