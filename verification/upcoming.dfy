/**
 * The list get_upcoming_birthdays builds: one pass over the contacts in book order, one
 * entry per contact whose congratulation date is due, and an abort on the first contact
 * whose date cannot be computed (the ValueError of date.replace). The pass is stated for any
 * per-contact rule and any date type D; module CongratulationRules supplies the rule the
 * Python code applies and the corrected one.
 */
module Upcoming {
  import opened Outcomes

  /** What the computation reads from a record: its name and its optional birthday. */
  datatype Contact<D> = Contact(name: string, birthday: Option<D>)

  /** One element of the returned list: {"name": ..., "congratulation_date": "DD.MM.YYYY"}. */
  datatype Entry = Entry(name: string, congratulationDate: string)

  /** A contact's congratulation date, if it is due, or the error that ends the pass. */
  type Rule<!D> = Contact<D> -> Result<Option<D>>

  /** The contact's date cannot be computed, so the whole pass fails. */
  predicate Fails<D>(c: Contact<D>, rule: Rule<D>) {
    rule(c).Err?
  }

  /** The contact appears in the result. */
  predicate Listed<D>(c: Contact<D>, rule: Rule<D>) {
    rule(c).Ok? && rule(c).value.Some?
  }

  /** The entry a listed contact contributes, its date written by render. */
  function EntryOf<D>(c: Contact<D>, rule: Rule<D>, render: D -> string): (e: Entry)
    requires Listed(c, rule)
    ensures e.name == c.name
  {
    Entry(c.name, render(rule(c).value.value))
  }

  /** Entries already collected, followed by what the rest of the pass yields. */
  function Append(acc: seq<Entry>, rest: Result<seq<Entry>>): (r: Result<seq<Entry>>)
    ensures r.Err? <==> rest.Err?
    ensures r.Ok? ==> r.value == acc + rest.value
  {
    match rest
    case Err(e) => Err(e)
    case Ok(tail) => Ok(acc + tail)
  }

  /** The pass over the contacts from index i on. */
  function UpcomingFrom<D>(cs: seq<Contact<D>>, i: nat, rule: Rule<D>, render: D -> string): (r: Result<seq<Entry>>)
    requires i <= |cs|
    ensures r.Ok? ==> |r.value| <= |cs| - i
    decreases |cs| - i
  {
    if i == |cs| then Ok([])
    else
      match rule(cs[i])
      case Err(e) => Err(e)
      case Ok(None) => UpcomingFrom(cs, i + 1, rule, render)
      case Ok(Some(d)) => Append([Entry(cs[i].name, render(d))], UpcomingFrom(cs, i + 1, rule, render))
  }

  /** Before the first contact nothing is collected. */
  lemma PassStarts<D>(cs: seq<Contact<D>>, rule: Rule<D>, render: D -> string)
    ensures Append([], UpcomingFrom(cs, 0, rule, render)) == UpcomingFrom(cs, 0, rule, render)
  {
    if UpcomingFrom(cs, 0, rule, render).Ok? {
      assert [] + UpcomingFrom(cs, 0, rule, render).value == UpcomingFrom(cs, 0, rule, render).value;
    }
  }

  /** After the last contact the pass yields what was collected. */
  lemma PassEnds<D>(cs: seq<Contact<D>>, rule: Rule<D>, render: D -> string, acc: seq<Entry>)
    ensures Append(acc, UpcomingFrom(cs, |cs|, rule, render)) == Ok(acc)
  {
    assert acc + [] == acc;
  }

  /** A contact whose date is computed adds its entry, if any, and the pass goes on. */
  lemma PassContinues<D>(cs: seq<Contact<D>>, i: nat, rule: Rule<D>, render: D -> string, acc: seq<Entry>)
    requires i < |cs| && rule(cs[i]).Ok?
    ensures Append(acc, UpcomingFrom(cs, i, rule, render))
            == Append(acc + (if Listed(cs[i], rule) then [EntryOf(cs[i], rule, render)] else []), UpcomingFrom(cs, i + 1, rule, render))
  {
    var rest := UpcomingFrom(cs, i + 1, rule, render);
    match rule(cs[i])
    case Ok(None) =>
      assert UpcomingFrom(cs, i, rule, render) == rest;
      assert acc + [] == acc;
    case Ok(Some(d)) =>
      var entry := Entry(cs[i].name, render(d));
      assert UpcomingFrom(cs, i, rule, render) == Append([entry], rest);
      if rest.Ok? {
        assert acc + ([entry] + rest.value) == (acc + [entry]) + rest.value;
      }
  }

  /** A contact whose date cannot be computed ends the pass with its error. */
  lemma PassStops<D>(cs: seq<Contact<D>>, i: nat, rule: Rule<D>, render: D -> string, acc: seq<Entry>)
    requires i < |cs| && rule(cs[i]).Err?
    ensures Append(acc, UpcomingFrom(cs, i, rule, render)) == Err(rule(cs[i]).error)
  {
  }

  /** The indices, from i on and in increasing order, of the contacts that are listed. */
  function Picks<D>(cs: seq<Contact<D>>, i: nat, rule: Rule<D>): (p: seq<nat>)
    requires i <= |cs|
    decreases |cs| - i
  {
    if i == |cs| then []
    else (if Listed(cs[i], rule) then [i] else []) + Picks(cs, i + 1, rule)
  }

  /** The j-th pick is a listed contact at or after i. */
  lemma {:induction false} PickIsListed<D>(cs: seq<Contact<D>>, i: nat, rule: Rule<D>, j: nat)
    requires i <= |cs| && j < |Picks(cs, i, rule)|
    ensures i <= Picks(cs, i, rule)[j] < |cs| && Listed(cs[Picks(cs, i, rule)[j]], rule)
    decreases |cs| - i
  {
    var tail := Picks(cs, i + 1, rule);
    if Listed(cs[i], rule) {
      assert Picks(cs, i, rule) == [i] + tail;
      if j > 0 {
        PickIsListed(cs, i + 1, rule, j - 1);
      }
    } else {
      PickIsListed(cs, i + 1, rule, j);
    }
  }

  /** Later picks are later contacts. */
  lemma {:induction false} PicksIncrease<D>(cs: seq<Contact<D>>, i: nat, rule: Rule<D>, j: nat, k: nat)
    requires i <= |cs| && j < k < |Picks(cs, i, rule)|
    ensures Picks(cs, i, rule)[j] < Picks(cs, i, rule)[k]
    decreases |cs| - i
  {
    var tail := Picks(cs, i + 1, rule);
    if Listed(cs[i], rule) {
      assert Picks(cs, i, rule) == [i] + tail;
      PickIsListed(cs, i + 1, rule, k - 1);
      if j > 0 {
        PicksIncrease(cs, i + 1, rule, j - 1, k - 1);
      }
    } else {
      PicksIncrease(cs, i + 1, rule, j, k);
    }
  }

  /** Every listed contact at or after i is picked. */
  lemma {:induction false} ListedIsPicked<D>(cs: seq<Contact<D>>, i: nat, rule: Rule<D>, n: nat)
    requires i <= n < |cs| && Listed(cs[n], rule)
    ensures n in Picks(cs, i, rule)
    decreases |cs| - i
  {
    if n > i {
      ListedIsPicked(cs, i + 1, rule, n);
    }
  }

  /** Picks names exactly the listed contacts, each once, in book order. */
  lemma PicksAreListed<D>(cs: seq<Contact<D>>, i: nat, rule: Rule<D>)
    requires i <= |cs|
    ensures forall j :: 0 <= j < |Picks(cs, i, rule)| ==>
              i <= Picks(cs, i, rule)[j] < |cs| && Listed(cs[Picks(cs, i, rule)[j]], rule)
    ensures forall j, k :: 0 <= j < k < |Picks(cs, i, rule)| ==> Picks(cs, i, rule)[j] < Picks(cs, i, rule)[k]
    ensures forall n :: i <= n < |cs| && Listed(cs[n], rule) ==> n in Picks(cs, i, rule)
  {
    forall j | 0 <= j < |Picks(cs, i, rule)|
      ensures i <= Picks(cs, i, rule)[j] < |cs| && Listed(cs[Picks(cs, i, rule)[j]], rule)
    {
      PickIsListed(cs, i, rule, j);
    }
    forall j, k | 0 <= j < k < |Picks(cs, i, rule)|
      ensures Picks(cs, i, rule)[j] < Picks(cs, i, rule)[k]
    {
      PicksIncrease(cs, i, rule, j, k);
    }
    forall n | i <= n < |cs| && Listed(cs[n], rule)
      ensures n in Picks(cs, i, rule)
    {
      ListedIsPicked(cs, i, rule, n);
    }
  }

  /** A contact whose date cannot be computed makes the whole pass fail. */
  lemma {:induction false} FailureAborts<D>(cs: seq<Contact<D>>, i: nat, rule: Rule<D>, render: D -> string, n: nat)
    requires i <= n < |cs| && Fails(cs[n], rule)
    ensures UpcomingFrom(cs, i, rule, render).Err?
    decreases |cs| - i
  {
    if n > i && !Fails(cs[i], rule) {
      FailureAborts(cs, i + 1, rule, render, n);
    }
  }

  /** A failed pass names a contact whose date cannot be computed. */
  lemma {:induction false} FailureCause<D>(cs: seq<Contact<D>>, i: nat, rule: Rule<D>, render: D -> string) returns (n: nat)
    requires i <= |cs| && UpcomingFrom(cs, i, rule, render).Err?
    ensures i <= n < |cs| && Fails(cs[n], rule)
    decreases |cs| - i
  {
    if Fails(cs[i], rule) {
      n := i;
    } else {
      n := FailureCause(cs, i + 1, rule, render);
    }
  }

  /** A successful pass has one entry per pick. */
  lemma {:induction false} EntriesMatchPicks<D>(cs: seq<Contact<D>>, i: nat, rule: Rule<D>, render: D -> string)
    requires i <= |cs| && UpcomingFrom(cs, i, rule, render).Ok?
    ensures |UpcomingFrom(cs, i, rule, render).value| == |Picks(cs, i, rule)|
    decreases |cs| - i
  {
    if i < |cs| {
      EntriesMatchPicks(cs, i + 1, rule, render);
    }
  }

  /** The j-th entry of a successful pass is the entry of the j-th pick. */
  lemma {:induction false} EntryIsPicked<D>(cs: seq<Contact<D>>, i: nat, rule: Rule<D>, render: D -> string, j: nat)
    requires i <= |cs| && UpcomingFrom(cs, i, rule, render).Ok?
    requires j < |UpcomingFrom(cs, i, rule, render).value|
    ensures j < |Picks(cs, i, rule)| && Picks(cs, i, rule)[j] < |cs| && Listed(cs[Picks(cs, i, rule)[j]], rule)
    ensures UpcomingFrom(cs, i, rule, render).value[j] == EntryOf(cs[Picks(cs, i, rule)[j]], rule, render)
    decreases |cs| - i
  {
    EntriesMatchPicks(cs, i, rule, render);
    PickIsListed(cs, i, rule, j);
    var rest, tail := UpcomingFrom(cs, i + 1, rule, render), Picks(cs, i + 1, rule);
    if Listed(cs[i], rule) {
      assert Picks(cs, i, rule) == [i] + tail;
      if j > 0 {
        EntryIsPicked(cs, i + 1, rule, render, j - 1);
      }
    } else {
      assert Picks(cs, i, rule) == tail;
      EntryIsPicked(cs, i + 1, rule, render, j);
    }
  }

  /**
   * The pass fails exactly when some contact's date cannot be computed; otherwise its entries
   * are those of the picked contacts, in the same order.
   */
  lemma UpcomingIsPicks<D>(cs: seq<Contact<D>>, i: nat, rule: Rule<D>, render: D -> string)
    requires i <= |cs|
    ensures UpcomingFrom(cs, i, rule, render).Err? <==> exists n :: i <= n < |cs| && Fails(cs[n], rule)
    ensures UpcomingFrom(cs, i, rule, render).Ok? ==>
              && |UpcomingFrom(cs, i, rule, render).value| == |Picks(cs, i, rule)|
              && forall j :: 0 <= j < |Picks(cs, i, rule)| ==>
                   Picks(cs, i, rule)[j] < |cs| && Listed(cs[Picks(cs, i, rule)[j]], rule)
                   && UpcomingFrom(cs, i, rule, render).value[j] == EntryOf(cs[Picks(cs, i, rule)[j]], rule, render)
  {
    if UpcomingFrom(cs, i, rule, render).Err? {
      var n := FailureCause(cs, i, rule, render);
    } else {
      forall n | i <= n < |cs| && Fails(cs[n], rule)
        ensures false
      {
        FailureAborts(cs, i, rule, render, n);
      }
      EntriesMatchPicks(cs, i, rule, render);
      forall j | 0 <= j < |Picks(cs, i, rule)|
        ensures Picks(cs, i, rule)[j] < |cs| && Listed(cs[Picks(cs, i, rule)[j]], rule)
                && UpcomingFrom(cs, i, rule, render).value[j] == EntryOf(cs[Picks(cs, i, rule)[j]], rule, render)
      {
        EntryIsPicked(cs, i, rule, render, j);
      }
    }
  }
}

/** The per-contact rules over calendar dates. */
module CongratulationRules {
  import opened Outcomes
  import opened Calendar
  import opened Birthdays
  import opened Upcoming

  /** The source's computation lists a birthday exactly when its rolled date is at most `days` ahead. */
  lemma RolledWithin(today: CalendarDate, days: int)
    ensures forall b ::
              (CongratulationDate(b, today, days).Ok? && CongratulationDate(b, today, days).value.Some?) <==>
              (RolledDate(b, today).Ok? && DayNumber(RolledDate(b, today).value) - DayNumber(today) <= days)
  {
    forall b | RolledDate(b, today).Ok? {
      CongratulationWindow(b, today, days);
    }
  }

  /** The corrected computation lists a birthday exactly when its intended date is at most `days` ahead. */
  lemma IntendedWithin(today: CalendarDate, days: int)
    ensures forall b ::
              (IntendedCongratulationDate(b, today, days).Ok? && IntendedCongratulationDate(b, today, days).value.Some?) <==>
              (IntendedDate(b, today).Ok? && DayNumber(IntendedDate(b, today).value) - DayNumber(today) <= days)
  {
    forall b | IntendedDate(b, today).Ok? {
      IntendedCongratulationWindow(b, today, days);
    }
  }

  /**
   * The loop body of get_upcoming_birthdays: a contact without a birthday is skipped; one
   * with a birthday aborts the pass exactly when its rolled date cannot be formed, and is
   * listed exactly when that date is at most `days` ahead.
   */
  function SourceRule(today: CalendarDate, days: int): (rule: Rule<CalendarDate>)
    ensures forall c :: Fails(c, rule) <==> c.birthday.Some? && RolledDate(c.birthday.value, today).Err?
    ensures forall c :: Listed(c, rule) <==>
              && c.birthday.Some?
              && RolledDate(c.birthday.value, today).Ok?
              && DayNumber(RolledDate(c.birthday.value, today).value) - DayNumber(today) <= days
  {
    RolledWithin(today, days);
    (c: Contact<CalendarDate>) => if c.birthday.None? then Ok(None) else CongratulationDate(c.birthday.value, today, days)
  }

  /**
   * The same loop body with the corrected date computation: a contact with a birthday fails
   * exactly when its intended date cannot be formed, and is listed exactly when that date is
   * at most `days` ahead.
   */
  function IntendedRule(today: CalendarDate, days: int): (rule: Rule<CalendarDate>)
    ensures forall c :: Fails(c, rule) <==> c.birthday.Some? && IntendedDate(c.birthday.value, today).Err?
    ensures forall c :: Listed(c, rule) <==>
              && c.birthday.Some?
              && IntendedDate(c.birthday.value, today).Ok?
              && DayNumber(IntendedDate(c.birthday.value, today).value) - DayNumber(today) <= days
  {
    IntendedWithin(today, days);
    (c: Contact<CalendarDate>) => if c.birthday.None? then Ok(None) else IntendedCongratulationDate(c.birthday.value, today, days)
  }

  /**
   * Under the source's rule a listed contact has a birthday whose rolled date is at most
   * `days` ahead, and the date shown is a weekday from today to two days past the horizon.
   */
  lemma SourceEntryWithinWindow(c: Contact<CalendarDate>, today: CalendarDate, days: int)
    requires Listed(c, SourceRule(today, days))
    ensures c.birthday.Some? && RolledDate(c.birthday.value, today).Ok?
    ensures DayNumber(RolledDate(c.birthday.value, today).value) - DayNumber(today) <= days
    ensures var d := SourceRule(today, days)(c).value.value;
            !IsWeekend(d) && DayNumber(today) <= DayNumber(d) <= DayNumber(today) + days + 2
    ensures var d := SourceRule(today, days)(c).value.value;
            ParseDate(EntryOf(c, SourceRule(today, days), DateToString).congratulationDate) == Some(d)
  {
    CongratulationWindow(c.birthday.value, today, days);
    ParseDateToString(SourceRule(today, days)(c).value.value);
  }

  /**
   * Under the corrected rule a listed contact is shown on its birthday in this or the next
   * year, shifted off a weekend, and never later than `days` ahead.
   */
  lemma IntendedEntryWithinWindow(c: Contact<CalendarDate>, today: CalendarDate, days: int)
    requires Listed(c, IntendedRule(today, days))
    ensures c.birthday.Some? && IntendedDate(c.birthday.value, today).Ok?
    ensures var d := IntendedRule(today, days)(c).value.value;
            && (IsShiftedBirthday(c.birthday.value, d, today.year) || IsShiftedBirthday(c.birthday.value, d, today.year + 1))
            && !IsWeekend(d) && DayNumber(today) <= DayNumber(d) <= DayNumber(today) + days
  {
    IntendedDateIsNextShiftedBirthday(c.birthday.value, today);
    IntendedCongratulationWindow(c.birthday.value, today, days);
  }
}
