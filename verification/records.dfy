/** A contact: a fixed name, an ordered list of phones changed in place, an optional birthday. */
module Records {
  import opened Outcomes
  import opened Calendar
  import opened Phones

  /** The index of the first phone whose value is v, if any. */
  function FirstMatch(phones: seq<Phone>, v: string): (r: Option<nat>)
    ensures r.None? <==> forall j :: 0 <= j < |phones| ==> phones[j].value != v
    ensures r.Some? ==> r.value < |phones| && phones[r.value].value == v
    ensures r.Some? ==> forall j :: 0 <= j < r.value ==> phones[j].value != v
  {
    if |phones| == 0 then None
    else if phones[0].value == v then Some(0)
    else match FirstMatch(phones[1..], v)
      case None => None
      case Some(i) => Some(i + 1)
  }

  /** The list with its i-th element taken out, the rest in their order. */
  function RemoveAt(phones: seq<Phone>, i: nat): (r: seq<Phone>)
    requires i < |phones|
    ensures |r| == |phones| - 1
    ensures forall j :: 0 <= j < i ==> r[j] == phones[j]
    ensures forall j :: i <= j < |r| ==> r[j] == phones[j + 1]
    ensures multiset(r) + multiset{phones[i]} == multiset(phones)
  {
    assert phones == phones[..i] + [phones[i]] + phones[i + 1..];
    phones[..i] + phones[i + 1..]
  }

  class Record {
    const name: string
    var phones: seq<Phone>
    var birthday: Option<CalendarDate>

    constructor (name: string)
      ensures this.name == name && phones == [] && birthday == None
    {
      this.name := name;
      phones := [];
      birthday := None;
    }

    /** add_phone: append a new Phone, or raise with the list unchanged. */
    method AddPhone(raw: string) returns (r: Outcome)
      modifies this
      ensures r.Pass? <==> IsPhoneNumber(raw)
      ensures r.Fail? ==> r.error == InvalidPhone && phones == old(phones)
      ensures r.Pass? ==> phones == old(phones) + [Phone(raw)]
      ensures birthday == old(birthday)
    {
      var p := NewPhone(raw);
      match p
      case Err(e) =>
        r := Fail(e);
      case Ok(phone) =>
        phones := phones + [phone];
        r := Pass;
    }

    /** edit_phone: replace the first phone equal to oldValue by Phone(newValue). */
    method EditPhone(oldValue: string, newValue: string) returns (r: Outcome)
      modifies this
      ensures birthday == old(birthday)
      ensures FirstMatch(old(phones), oldValue).None? ==> r == Fail(PhoneNotFound) && phones == old(phones)
      ensures FirstMatch(old(phones), oldValue).Some? && !IsPhoneNumber(newValue) ==>
                r == Fail(InvalidPhone) && phones == old(phones)
      ensures FirstMatch(old(phones), oldValue).Some? && IsPhoneNumber(newValue) ==>
                r == Pass && phones == old(phones)[FirstMatch(old(phones), oldValue).value := Phone(newValue)]
    {
      var ind := 0;
      while ind < |phones|
        invariant 0 <= ind <= |phones|
        invariant forall j :: 0 <= j < ind ==> phones[j].value != oldValue
      {
        if phones[ind].value == oldValue {
          var p := NewPhone(newValue);
          if p.Err? {
            r := Fail(p.error);
          } else {
            phones := phones[ind := p.value];
            r := Pass;
          }
          return;
        }
        ind := ind + 1;
      }
      r := Fail(PhoneNotFound);
    }

    /** remove_phone: drop the first phone equal to v, keeping the others in order. */
    method RemovePhone(v: string) returns (r: Outcome)
      modifies this
      ensures birthday == old(birthday)
      ensures FirstMatch(old(phones), v).None? ==> r == Fail(PhoneNotFound) && phones == old(phones)
      ensures FirstMatch(old(phones), v).Some? ==>
                r == Pass && phones == RemoveAt(old(phones), FirstMatch(old(phones), v).value)
    {
      var ind := 0;
      while ind < |phones|
        invariant 0 <= ind <= |phones|
        invariant forall j :: 0 <= j < ind ==> phones[j].value != v
      {
        if phones[ind].value == v {
          phones := RemoveAt(phones, ind);
          r := Pass;
          return;
        }
        ind := ind + 1;
      }
      r := Fail(PhoneNotFound);
    }

    /** find_phone: the first phone equal to v, or None; never raises. */
    method FindPhone(v: string) returns (r: Option<Phone>)
      ensures r.None? <==> forall j :: 0 <= j < |phones| ==> phones[j].value != v
      ensures r.Some? ==> r.value.value == v && r.value == phones[FirstMatch(phones, v).value]
    {
      for ind := 0 to |phones|
        invariant forall j :: 0 <= j < ind ==> phones[j].value != v
      {
        if phones[ind].value == v {
          return Some(phones[ind]);
        }
      }
      return None;
    }

    /** add_birthday: overwrite the birthday unconditionally. */
    method AddBirthday(b: CalendarDate)
      modifies this
      ensures birthday == Some(b) && phones == old(phones)
    {
      birthday := Some(b);
    }
  }
}
