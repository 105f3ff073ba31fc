/** The Phone field: a string of exactly ten decimal digits, stored verbatim. */
module Phones {
  import opened Outcomes
  import opened Text

  /** str.isdigit(): true exactly for a non-empty string of digits. */
  predicate IsAllDigits(s: string) {
    |s| > 0 && AllDigits(s)
  }

  /** The condition under which Phone.__init__ does not raise. */
  predicate IsPhoneNumber(s: string) {
    IsAllDigits(s) && |s| == 10
  }

  type PhoneNumber = s: string | IsPhoneNumber(s) witness "0000000000"

  datatype Phone = Phone(value: PhoneNumber)

  /** Phone(raw): ValueError unless raw is ten digits; otherwise the value is raw itself. */
  function NewPhone(raw: string): (r: Result<Phone>)
    ensures r.Ok? <==> |raw| == 10 && forall i :: 0 <= i < |raw| ==> IsDigit(raw[i])
    ensures r.Ok? ==> r.value.value == raw
    ensures r.Err? ==> r.error == InvalidPhone
  {
    if !IsAllDigits(raw) || |raw| != 10 then Err(InvalidPhone) else Ok(Phone(raw))
  }
}
