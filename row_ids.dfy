/**
 * Synthesised row ids "NewRow_<n>": the decimal text of a counter value
 * behind a fixed prefix. Parsing the digits back shows that distinct
 * counter values give distinct ids.
 */
module RowIds {

  const Prefix: string := "NewRow_"

  predicate IsDigit(c: char) { '0' <= c <= '9' }

  predicate AllDigits(s: string) { forall i | 0 <= i < |s| :: IsDigit(s[i]) }

  function DigitChar(d: nat): (c: char)
    requires d < 10
    ensures IsDigit(c) && c as int - '0' as int == d
  {
    (d + '0' as int) as char
  }

  /** The decimal text of `n`, most significant digit first, no leading zeros. */
  function NatToString(n: nat): (s: string)
    ensures |s| >= 1 && AllDigits(s)
    ensures |s| > 1 ==> s[0] != '0'
    decreases n
  {
    if n < 10 then [DigitChar(n)] else NatToString(n / 10) + [DigitChar(n % 10)]
  }

  /** The number a string of decimal digits denotes. */
  function ParseDigits(s: string): nat
    requires AllDigits(s)
  {
    if s == [] then 0
    else 10 * ParseDigits(s[..|s| - 1]) + (s[|s| - 1] as int - '0' as int)
  }

  lemma {:induction false} ParseNatToString(n: nat)
    ensures ParseDigits(NatToString(n)) == n
    decreases n
  {
    var s := NatToString(n);
    if n >= 10 {
      ParseNatToString(n / 10);
      assert s[..|s| - 1] == NatToString(n / 10);
    }
  }

  /** The id the table's counter value `n` stands for. */
  function IdFor(n: nat): (id: string)
    ensures |id| > |Prefix| && id[..|Prefix|] == Prefix && AllDigits(id[|Prefix|..])
  {
    Prefix + NatToString(n)
  }

  /** The counter value a synthesised id was built from. */
  function IdNumber(id: string): nat
    requires |id| >= |Prefix| && AllDigits(id[|Prefix|..])
  {
    ParseDigits(id[|Prefix|..])
  }

  lemma IdNumberOfIdFor(n: nat)
    ensures |IdFor(n)| >= |Prefix| && AllDigits(IdFor(n)[|Prefix|..])
    ensures IdNumber(IdFor(n)) == n
  {
    assert IdFor(n)[|Prefix|..] == NatToString(n);
    ParseNatToString(n);
  }

  /** Distinct counter values never give the same id. */
  lemma IdForInjective(m: nat, n: nat)
    ensures IdFor(m) == IdFor(n) <==> m == n
  {
    IdNumberOfIdFor(m);
    IdNumberOfIdFor(n);
  }
}
