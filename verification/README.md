# Contact book assistant: a verified model

HW8_1.py is a console assistant bot that keeps an address book. The book maps each contact's
name to a record. A record holds the name, a list of ten-digit phone numbers, and an optional
birthday. Commands add contacts and phones, edit phones, set birthdays, and list the
birthdays due in the coming week. When a birthday falls on a weekend, it is congratulated on
the following Monday.

This project models the logic core of that program in Dafny:

- **Phone validation** (`Phones`).
- **The Record class** (`Records.Record`): a fixed name, a phone list changed in place, and an
  optional birthday.
- **The AddressBook class** (`AddressBooks.AddressBook`): a map from name to record. Beside the
  map it keeps the key order, because Python dictionaries iterate in insertion order.
- **The calendar arithmetic the book needs** (`Calendar`):
  - proleptic Gregorian dates, years 1 to 9999, numbered as `date.toordinal()` numbers them;
  - the weekday, computed from that number;
  - `date.replace(year=...)` and `date + timedelta`, each with its failure case;
  - the `DD.MM.YYYY` text form.
- **The upcoming-birthday computation**, in two parts:
  - `Birthdays` handles one contact: the weekend shift, the roll to next year, and the double
    shift exactly as written;
  - `Upcoming` handles the pass over the whole book.
- **The command handlers that change the book** (`Handlers`): `add`, `change` and
  `add-birthday`.

Python exceptions become `Err` results, with one error constructor per exception the
modelled operations raise once their arguments are unpacked (the wrong-argument-count
failure of the handlers is left out, see below). The current date is a parameter (`today`) and is not read from a clock.

`AddressBook.GetUpcomingBirthdays` reproduces the source's computation exactly, errors
included. Its result is stated through the pass `Upcoming.UpcomingFrom`, which takes the
per-contact rule as a parameter:

- `CongratulationRules.SourceRule` is the rule the Python code applies;
- `CongratulationRules.IntendedRule` is the corrected rule, described under Findings.

The lemmas about the pass hold for both rules.

## Model

| member | source | states |
|---|---|---|
| Phones.NewPhone | HW8_1.py:16-20 | a Phone is built exactly when the text is ten characters, all digits; it keeps the text verbatim; otherwise it fails with InvalidPhone |
| Calendar.DaysInMonth | HW8_1.py:25 | a month has 28 to 31 days, and 29 exactly for February of a leap year (the dates `datetime.date` accepts) |
| Calendar.DayNumberInYear | HW8_1.py:66 | the ordinal that `(birthday - today).days` subtracts (`date.toordinal()`): a date's ordinal lies after every ordinal of the earlier years and within its own year's range |
| Calendar.DayNumberRange | HW8_1.py:46 | the ordinal that `date + timedelta` moves: every representable date's `toordinal()` lies between 1 and 3652059 (31.12.9999) |
| Calendar.Weekday | HW8_1.py:43-51 | `date.weekday()` is a number from 0 (Monday) to 6 (Sunday), taken from the ordinal |
| Calendar.BeforeIsOrdinalOrder | HW8_1.py:64 | the date comparison `a < b` holds exactly when a's ordinal is smaller than b's |
| Calendar.DayNumberInjective | HW8_1.py:64-66 | two dates with the same ordinal are the same date, so the day distance is zero only for equal dates |
| Calendar.FromDayNumberOfDayNumber | HW8_1.py:46 | converting a date to its ordinal and back gives the date |
| Calendar.AddDays | HW8_1.py:46 | `date + timedelta(k)` succeeds exactly when the result lies between 1.1.1 and 31.12.9999; the result is k ordinals on; otherwise OverflowError |
| Calendar.WeekdayAfter | HW8_1.py:43 | a date k days after another falls k steps further round the week |
| Calendar.NextDay | HW8_1.py:50-52 | the day after a date below the maximum has the next ordinal |
| Calendar.Replace | HW8_1.py:62 | `replace(year=y)` succeeds exactly when y is 1..9999 and the day exists in that year; month and day are kept; otherwise ValueError |
| Calendar.ReplaceFailsOnlyOnLeapDay | HW8_1.py:62 | replacing the year fails only for 29 February moved into a common year |
| Calendar.DateToString | HW8_1.py:39-40 | `strftime("%d.%m.%Y")` gives ten characters with dots at positions 2 and 5 |
| Calendar.ParseDate | HW8_1.py:22-27 | text that parses has the `DD.MM.YYYY` shape, and a parsed triple is a valid date |
| Calendar.ParseDateToString | HW8_1.py:36-40 | parsing a formatted date gives the date back |
| Calendar.DateToStringOfParse | HW8_1.py:36-40 | formatting a parsed date gives the text back, so the text form is exactly the image of DateToString |
| Birthdays.AdjustForWeekday | HW8_1.py:48-53 | weekdays are unchanged; Saturday moves 2 days on, Sunday 1 day on; the result is never a weekend day |
| Birthdays.AdjustIsFirstWeekday | HW8_1.py:48-53 | every day between a date and its shifted date is a weekend day, so the shift lands on the first weekday at or after the date |
| Birthdays.AdjustIdempotent | HW8_1.py:48-53 | shifting twice is the same as shifting once |
| Birthdays.FindNextWeekday | HW8_1.py:42-46 | the result falls on the requested weekday, 1 to 7 days after start; it fails with OverflowError only when start is within a week of 31.12.9999 |
| Birthdays.FindNextWeekdayIsFirst | HW8_1.py:42-46 | no day strictly between start and the result falls on the requested weekday |
| Birthdays.RolledDate | HW8_1.py:62-65 | the date whose distance is measured: the birthday replaced into today's year, shifted once, and if past moved to the next year; it can fail only with ValueError |
| Birthdays.RolledDateNotPast | HW8_1.py:61-66 | the date whose distance is measured is never before today and lies in today's or the next year, so the `0 <= delta` test always holds |
| Birthdays.RolledDateFailure | HW8_1.py:62-65 | the computation raises only for a birthday on 27 to 29 February, or in year 9999 |
| Birthdays.CongratulationDate | HW8_1.py:61-68 | one contact's computation fails exactly when the rolled date cannot be formed |
| Birthdays.CongratulationWindow | HW8_1.py:66-68 | a contact is listed exactly when the rolled date is at most `days` ahead; the date shown is a weekday from today to `days + 2` days ahead |
| Birthdays.CongratulationPassesHorizon | HW8_1.py:63-68 | born 1 January, on 25.12.2016 with `days` 7: listed for 02.01.2017, eight days ahead |
| Birthdays.RolledShiftedDateIsWrong | HW8_1.py:62-67 | born 1 January, on 28.12.2022: listed for 03.01.2023, which is not the birthday shifted off a weekend in 2022 or 2023; the corrected rule gives 02.01.2023 |
| Birthdays.ShiftedLeapDayFails | HW8_1.py:62-65 | born 27 February, on 10.03.2016: the code raises ValueError; the corrected rule lists nothing |
| Birthdays.IntendedDateFailure | HW8_1.py:62-65 | the corrected computation fails only for a 29 February birthday or in year 9999 |
| Birthdays.IntendedDateIsNextShiftedBirthday | HW8_1.py:61-66 | the corrected date is this year's or next year's birthday shifted off a weekend, and is not before today |
| Birthdays.IntendedDatePrefersThisYear | HW8_1.py:61-66 | this year's shifted birthday is the corrected date whenever it is not past |
| Birthdays.IntendedCongratulationWindow | HW8_1.py:66-68 | under the corrected rule a contact is listed exactly when its date is at most `days` ahead, and is listed for that date |
| Upcoming.PicksAreListed | HW8_1.py:59-70 | the picked indices are exactly the listed contacts, strictly increasing, so each contact appears at most once and in book order |
| Upcoming.UpcomingFrom | HW8_1.py:56-72 | the accumulating loop over the contacts from a given index: it yields at most one entry per remaining contact |
| Upcoming.UpcomingIsPicks | HW8_1.py:55-72 | the pass fails exactly when some contact's date cannot be computed; otherwise it yields one entry per picked contact, in order, each with that contact's name and date |
| CongratulationRules.SourceEntryWithinWindow | HW8_1.py:60-70 | under the source's rule, a listed contact has a birthday whose rolled date is at most `days` ahead; its date is a weekday up to `days + 2` ahead; the entry text parses back to it |
| CongratulationRules.SourceRule | HW8_1.py:60-70 | the loop body: a contact aborts the pass exactly when it has a birthday whose rolled date cannot be formed; it is listed exactly when it has a birthday whose rolled date can be formed and is at most `days` ahead; a contact without a birthday is skipped |
| CongratulationRules.IntendedRule | HW8_1.py:60-70 | the corrected loop body: a contact fails exactly when it has a birthday whose corrected date cannot be formed, and is listed exactly when that date can be formed and is at most `days` ahead |
| CongratulationRules.IntendedEntryWithinWindow | HW8_1.py:60-70 | under the corrected rule, a listed contact is shown on its shifted birthday of this or next year, a weekday at most `days` ahead |
| Records.FirstMatch | HW8_1.py:90-93 | the first index whose phone equals the value, or None exactly when no phone does |
| Records.RemoveAt | HW8_1.py:100 | `list.remove` of one position: one element shorter, earlier elements kept, later ones shifted down, the same multiset minus the removed one |
| Records.Record.constructor | HW8_1.py:81-84 | a new record has the given name, no phones and no birthday |
| Records.Record.AddPhone | HW8_1.py:86-87 | appends Phone(raw) when raw is valid; otherwise fails with InvalidPhone and leaves the list unchanged |
| Records.Record.EditPhone | HW8_1.py:89-95 | replaces only the first phone equal to the old value; with no match, or an invalid new value, it fails and leaves the list unchanged |
| Records.Record.RemovePhone | HW8_1.py:97-102 | removes exactly the first phone equal to the value, keeping the others in order; with no match it fails and changes nothing |
| Records.Record.FindPhone | HW8_1.py:107-111 | returns the first phone equal to the value, or None exactly when no phone is equal; the record is not changed |
| Records.Record.AddBirthday | HW8_1.py:104-105 | sets the birthday and leaves the phones alone |
| AddressBooks.Without | HW8_1.py:74-75 | the key order after deletion holds every other key and not the deleted one |
| AddressBooks.WithoutRemovesAt | HW8_1.py:74-75 | among distinct keys, deletion takes out the deleted key's one position and keeps the others in order |
| AddressBooks.WithoutDistinct | HW8_1.py:74-75 | deletion keeps the keys distinct |
| AddressBooks.AddressBook.constructor | HW8_1.py:29 | a new book is empty and consistent |
| AddressBooks.AddressBook.Find | HW8_1.py:33-34 | returns the record filed under the name, whose name is that name, or null exactly when there is none |
| AddressBooks.AddressBook.AddRecord | HW8_1.py:30-31 | afterwards `find(record.name)` is the record; a previous record under that name is replaced; every other name finds what it found before; a new name goes last in iteration order |
| AddressBooks.AddressBook.Delete | HW8_1.py:74-75 | removes the name and its record and nothing else, keeping the other names' order; a missing name raises KeyError and changes nothing |
| AddressBooks.AddressBook.GetUpcomingBirthdays | HW8_1.py:55-72 | the result is the pass over the records in iteration order under the source's rule; the book is not changed |
| Handlers.AddContact | HW8_1.py:135-146 | a new name is filed as a new record before its phone is checked, so an invalid phone leaves a phone-less record; an existing record gets the phone appended; messages and errors as in the code |
| Handlers.ChangeContact | HW8_1.py:149-159 | a missing name fails with "Contact not found"; otherwise the first matching phone is replaced; a missing old number or an invalid new one both fail as "Number not found" with nothing changed |
| Handlers.AddBirthday | HW8_1.py:177-187 | a new name is filed as a new record before the date is parsed, so bad text leaves a record without a birthday; valid text sets the birthday; the phones are never touched |

## Left out

- The console loop, `parse_input`, `input`/`print`, `get_greeting` and `get_good_bye` (HW8_1.py:126-132, 221-256) are left out. They are console I/O.
- `save_data` and `load_data` (HW8_1.py:207-218) are left out. They are pickle file I/O.
- The `input_error` decorator (HW8_1.py:116-124) is not modelled as such. It only catches an exception and prints it. Every modelled operation returns the error as an `Err` value instead.
- `show_phone`, `show_all`, `show_birthday`, `birthdays` and the `__str__` methods (HW8_1.py:9-10, 77-78, 113-114, 161-205) are left out. They only render text. One consequence is not visible in the model: `birthdays` (HW8_1.py:200) is the only book command without `@input_error`. So an `Err(InvalidDate)` from AddressBooks.AddressBook.GetUpcomingBirthdays is, in the program, an uncaught ValueError. It ends `main()` before `save_data` runs, losing the session's changes. Birthdays.RolledDateFailure bounds when this happens: only for a birthday on 27 to 29 February, or in the year 9999. In detail, below the year 9999:
  - A contact born on 29 February raises it on every day of a common year. In a leap year it raises once 29 February is past, when that day is a weekday: the date then stays 29 February and is replaced into the following common year. When it falls on a weekend, the date is shifted into March first and nothing is raised.
  - A contact born on 27 or 28 February raises it only in a leap year where the 27th is a Saturday or the 28th a Sunday, so that the shift lands on 29 February, and only once 29 February is past (the second finding below). In a common year such a contact never raises it.
- The handlers take their arguments already unpacked (`name`, `phone`, ...). The ValueError that `name, phone = args` (HW8_1.py:136), `name, old_phone, new_phone = args` (:150) and `name, birthday = args` (:178) raise for a wrong number of words is left to the command dispatcher and not modelled. In the program, `input_error` prints it and the book is unchanged.
- The wall clock `datetime.today()` (HW8_1.py:57) is not modelled. It becomes the `today` parameter.
- `Field` and `Name` (HW8_1.py:5-14) are not modelled as separate types. They only wrap a value, so a name is a plain string and a phone is a `Phone` holding its text.
- Phones.NewPhone: accepts only the ASCII digits `0`-`9`. Python's `str.isdigit` also accepts other Unicode digit characters, so the model rejects some ten-character strings that the source accepts.
- Calendar.ParseDate: accepts only the zero-padded `DD.MM.YYYY` form. `datetime.strptime` with `"%d.%m.%Y"` also accepts one-digit days and months and some other spellings. Handlers.AddBirthday inherits this through ParseDate. `AddressBook.string_to_date` (HW8_1.py:36-37) is modelled by ParseDate too.
- Calendar.DateToString: always writes the year with four digits. For years below 1000 the platform's `strftime` may not pad them.
- AddressBooks.AddressBook.GetUpcomingBirthdays: reproduces the source, including its double weekend shift. The corrected rule (see Findings) is stated and proved at the level of the pass (`CongratulationRules.IntendedRule`), but the book method does not use it.
- `find_next_weekday` is never called by the rest of the program. It is modelled on its own as Birthdays.FindNextWeekday, and its unused `birthday` argument is kept.
- `UserDict` behaviour beyond `data`, `add_record`, `find` and `delete` (`len`, `in`, iteration by the caller) is not modelled.

## Findings

| source | as written | input that shows it | evidently intended | confidence | as-written member | corrected member |
|---|---|---|---|---|---|---|
| HW8_1.py:63-67 | when the shifted date is past, that shifted date is moved to next year and shifted again, instead of taking next year's birthday | birthday 1 January, today 28.12.2022: listed for Tuesday 03.01.2023 | Monday 02.01.2023, the birthday of 2023 moved off the weekend | not executed; high | Birthdays.RolledShiftedDateIsWrong | Birthdays.IntendedDateIsNextShiftedBirthday |
| HW8_1.py:63-65 | a birthday shifted onto 29 February of a leap year is replaced into the next, common year, and `replace` raises ValueError | birthday 27 February, today 10.03.2016 (27.02.2016 is a Saturday) | no entry: the 2017 birthday is more than a week away | not executed; high | Birthdays.ShiftedLeapDayFails | Birthdays.IntendedDateFailure |
| HW8_1.py:66-68 | the distance is measured before the second weekend shift, so the date shown can lie up to two days past the horizon | birthday 1 January, today 25.12.2016, `days` 7: listed for 02.01.2017, eight days ahead | only dates at most `days` ahead are listed | not executed; medium | Birthdays.CongratulationPassesHorizon | CongratulationRules.IntendedEntryWithinWindow |
