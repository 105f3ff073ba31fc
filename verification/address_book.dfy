/**
 * AddressBook: a dictionary from a contact's name to its Record. Python dictionaries iterate
 * in insertion order, and get_upcoming_birthdays walks the records in that order, so the
 * model keeps the order of the keys beside the map.
 */
module AddressBooks {
  import opened Outcomes
  import opened Calendar
  import opened Records
  import opened Upcoming
  import opened Birthdays
  import opened CongratulationRules

  predicate Distinct(s: seq<string>) {
    forall i, j :: 0 <= i < j < |s| ==> s[i] != s[j]
  }

  /** The key order after `del d[name]`: every other key, in its old order. */
  function Without(order: seq<string>, name: string): (r: seq<string>)
    ensures forall k :: k in r <==> k in order && k != name
  {
    if order == [] then []
    else (if order[0] == name then [] else [order[0]]) + Without(order[1..], name)
  }

  /** In a list of distinct keys, removing one key takes out its single position. */
  lemma {:induction false} WithoutRemovesAt(order: seq<string>, name: string, i: nat)
    requires Distinct(order) && i < |order| && order[i] == name
    ensures Without(order, name) == order[..i] + order[i + 1..]
  {
    if i == 0 {
      assert name !in order[1..];
      WithoutAbsent(order[1..], name);
    } else {
      assert order[1..][i - 1] == name;
      WithoutRemovesAt(order[1..], name, i - 1);
      assert order[1..][..i - 1] + order[1..][i..] == order[1..i] + order[i + 1..];
      assert [order[0]] + order[1..i] == order[..i];
    }
  }

  /** Removing a key that is not there changes nothing. */
  lemma {:induction false} WithoutAbsent(order: seq<string>, name: string)
    requires name !in order
    ensures Without(order, name) == order
  {
    if order != [] {
      WithoutAbsent(order[1..], name);
      assert [order[0]] + order[1..] == order;
    }
  }

  /** Removing a key from distinct keys leaves them distinct. */
  lemma {:induction false} WithoutDistinct(order: seq<string>, name: string)
    requires Distinct(order)
    ensures Distinct(Without(order, name))
  {
    if name in order {
      var i :| 0 <= i < |order| && order[i] == name;
      WithoutRemovesAt(order, name, i);
    } else {
      WithoutAbsent(order, name);
    }
  }

  /** The contacts get_upcoming_birthdays reads, taken from `data` in the order of `keys`. */
  function ContactsOf(keys: seq<string>, data: map<string, Record>): (cs: seq<Contact<CalendarDate>>)
    requires forall k :: k in keys ==> k in data
    reads data.Values
    ensures |cs| == |keys|
    ensures forall i :: 0 <= i < |keys| ==> cs[i] == Contact(data[keys[i]].name, data[keys[i]].birthday)
  {
    if keys == [] then []
    else [Contact(data[keys[0]].name, data[keys[0]].birthday)] + ContactsOf(keys[1..], data)
  }

  class AddressBook {
    /** The dictionary: a contact's name to its record. */
    var data: map<string, Record>
    /** The dictionary's iteration order: each key once, in order of first insertion. */
    var order: seq<string>

    /** Each record is filed under its own name, and `order` lists exactly the keys, once each. */
    ghost predicate Valid()
      reads this
    {
      && (forall k :: k in data ==> data[k].name == k)
      && Distinct(order)
      && (forall k :: k in data <==> k in order)
    }

    constructor ()
      ensures Valid() && data == map[] && order == []
    {
      data := map[];
      order := [];
    }

    /** find: the record filed under name, or null. */
    function Find(name: string): (r: Record?)
      reads this
      requires Valid()
      ensures r != null <==> name in data
      ensures r != null ==> r == data[name] && r.name == name
    {
      if name in data then data[name] else null
    }

    /**
     * add_record: file the record under its name, replacing any record there. A new name goes
     * to the end of the iteration order; a replaced one keeps its place.
     */
    method AddRecord(record: Record)
      requires Valid()
      modifies this
      ensures Valid()
      ensures Find(record.name) == record
      ensures forall k :: k != record.name ==> Find(k) == old(Find(k))
      ensures data == old(data)[record.name := record]
      ensures order == if record.name in old(data) then old(order) else old(order) + [record.name]
    {
      if record.name !in data {
        order := order + [record.name];
      }
      data := data[record.name := record];
    }

    /** delete: remove the name and its record, or raise KeyError when it is not there. */
    method Delete(name: string) returns (r: Outcome)
      requires Valid()
      modifies this
      ensures Valid()
      ensures name !in old(data) ==> r == Fail(NoSuchContact) && data == old(data) && order == old(order)
      ensures name in old(data) ==> r == Pass && data == old(data) - {name} && order == Without(old(order), name)
      ensures Find(name) == null
      ensures forall k :: k != name ==> Find(k) == old(Find(k))
    {
      if name !in data {
        return Fail(NoSuchContact);
      }
      WithoutDistinct(order, name);
      data := data - {name};
      order := Without(order, name);
      r := Pass;
    }

    /** The records as get_upcoming_birthdays sees them, in iteration order. */
    ghost function Contacts(): (cs: seq<Contact<CalendarDate>>)
      reads this, data.Values
      requires Valid()
      ensures |cs| == |order|
      ensures forall i :: 0 <= i < |order| ==> cs[i] == Contact(order[i], data[order[i]].birthday)
    {
      ContactsOf(order, data)
    }

    /**
     * get_upcoming_birthdays, with today's date passed in: the entries of the pass over the
     * records in iteration order, or the error of the first record whose date cannot be
     * computed. The book is not changed.
     */
    method GetUpcomingBirthdays(today: CalendarDate, days: int := 7) returns (r: Result<seq<Entry>>)
      requires Valid()
      ensures r == UpcomingFrom(Contacts(), 0, SourceRule(today, days), DateToString)
    {
      ghost var cs := Contacts();
      ghost var rule := SourceRule(today, days);
      var upcoming: seq<Entry> := [];
      PassStarts(cs, rule, DateToString);
      for i := 0 to |order|
        invariant UpcomingFrom(cs, 0, rule, DateToString) == Append(upcoming, UpcomingFrom(cs, i, rule, DateToString))
      {
        var contact := data[order[i]];
        if contact.birthday.Some? {
          var congratulation := CongratulationDate(contact.birthday.value, today, days);
          assert rule(cs[i]) == congratulation;
          match congratulation
          case Err(e) =>
            PassStops(cs, i, rule, DateToString, upcoming);
            return Err(e);
          case Ok(None) =>
            PassContinues(cs, i, rule, DateToString, upcoming);
          case Ok(Some(d)) =>
            PassContinues(cs, i, rule, DateToString, upcoming);
            upcoming := upcoming + [Entry(contact.name, DateToString(d))];
        } else {
          PassContinues(cs, i, rule, DateToString, upcoming);
        }
      }
      PassEnds(cs, rule, DateToString, upcoming);
      return Ok(upcoming);
    }
  }
}
