/**
 Identifiers of the shapes the event schema prescribes and queries the normalizer returns, from which
 the runs that attain a bound or break a property are built.
 */
module Witness {
  const EVENT_ID: string := "00000000-0000-4000-8000-000000000000"
  const OTHER_EVENT_ID: string := "00000000-0000-4000-8000-000000000001"
  const IP: string := "ip_source"
  const OTHER_IP: string := "ip_another"
  const SESSION: string := "s_session"
  const QUERY: string := "query"

  /** A number in decimal digits. */
  function Digits(k: nat): string {
    (if k < 10 then "" else Digits(k / 10)) + ['0' + (k % 10) as char]
  }

  function ValueOf(digits: string): int {
    if digits == "" then 0
    else ValueOf(digits[..|digits| - 1]) * 10 + (digits[|digits| - 1] as int - '0' as int)
  }

  lemma {:induction false} DigitsShape(k: nat)
    ensures ValueOf(Digits(k)) == k && '|' !in Digits(k) && Digits(k) != ""
  {
    if k >= 10 { DigitsShape(k / 10); }
    assert Digits(k)[..|Digits(k)| - 1] == if k < 10 then "" else Digits(k / 10);
  }

  function Numbered(stem: string, k: nat): string { stem + Digits(k) }

  lemma {:induction false} NumberedShape(stem: string, k: nat)
    requires '|' !in stem
    ensures '|' !in Numbered(stem, k) && Numbered(stem, k) != ""
  {
    DigitsShape(k);
  }

  lemma {:induction false} NumberedDiffer(stem: string, i: nat, k: nat)
    requires i != k
    ensures Numbered(stem, i) != Numbered(stem, k)
  {
    DigitsShape(i);
    DigitsShape(k);
    assert Numbered(stem, i)[|stem|..] == Digits(i) && Numbered(stem, k)[|stem|..] == Digits(k);
  }

  lemma {:induction false} Apart()
    ensures IP != OTHER_IP && EVENT_ID != OTHER_EVENT_ID
  {
    assert IP[3] != OTHER_IP[3];
    assert EVENT_ID[35] != OTHER_EVENT_ID[35];
  }
}
