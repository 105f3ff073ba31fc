/**
 * The bot commands that change the book: add (find-or-create, then add a phone), change
 * (edit a phone of an existing contact) and add-birthday (find-or-create, then parse and set
 * the birthday). A raised exception becomes an Err result carrying the message's meaning.
 */
module Handlers {
  import opened Outcomes
  import opened Calendar
  import opened Phones
  import opened Records
  import opened AddressBooks

  /**
   * add_contact: the record is filed in the book before its phone is validated, so a new name
   * with an invalid phone still leaves a record without phones behind.
   */
  method AddContact(book: AddressBook, name: string, phone: string) returns (r: Result<string>)
    requires book.Valid()
    modifies book, if name in book.data then {book.data[name]} else {}
    ensures book.Valid() && name in book.data
    ensures name in old(book.data) ==>
              && book.data == old(book.data) && book.order == old(book.order)
              && book.data[name].birthday == old(book.data[name].birthday)
    ensures name !in old(book.data) ==>
              && fresh(book.data[name])
              && book.data == old(book.data)[name := book.data[name]]
              && book.order == old(book.order) + [name]
              && book.data[name].birthday == None
    ensures var before := if name in old(book.data) then old(book.data[name].phones) else [];
            if IsPhoneNumber(phone) then
              && book.data[name].phones == before + [Phone(phone)]
              && r == Ok(if name in old(book.data) then "Contact updated" else "Contact added.")
            else
              book.data[name].phones == before && r == Err(InvalidPhone)
  {
    var record := book.Find(name);
    if record == null {
      record := new Record(name);
      book.AddRecord(record);
      var added := record.AddPhone(phone);
      if added.Fail? {
        return Err(added.error);
      }
      return Ok("Contact added.");
    } else {
      var added := record.AddPhone(phone);
      if added.Fail? {
        return Err(added.error);
      }
      return Ok("Contact updated");
    }
  }

  /**
   * change_contact: edit a phone of an existing contact. Both failures of edit_phone, a
   * missing old number and an invalid new one, are reported as "Number not found".
   */
  method ChangeContact(book: AddressBook, name: string, oldPhone: string, newPhone: string) returns (r: Result<string>)
    requires book.Valid()
    modifies if name in book.data then {book.data[name]} else {}
    ensures name !in book.data ==> r == Err(ContactNotFound)
    ensures name in book.data ==>
              var m := FirstMatch(old(book.data[name].phones), oldPhone);
              && book.data[name].birthday == old(book.data[name].birthday)
              && if m.Some? && IsPhoneNumber(newPhone) then
                   r == Ok("Contact updated")
                   && book.data[name].phones == old(book.data[name].phones)[m.value := Phone(newPhone)]
                 else
                   r == Err(PhoneNotFound) && book.data[name].phones == old(book.data[name].phones)
  {
    var record := book.Find(name);
    if record == null {
      return Err(ContactNotFound);
    }
    var edited := record.EditPhone(oldPhone, newPhone);
    if edited.Fail? {
      return Err(PhoneNotFound);
    }
    return Ok("Contact updated");
  }

  /**
   * add_birthday: the record is filed in the book before the date text is parsed, so a new
   * name with an unparsable date still leaves a record without a birthday behind.
   */
  method AddBirthday(book: AddressBook, name: string, text: string) returns (r: Result<string>)
    requires book.Valid()
    modifies book, if name in book.data then {book.data[name]} else {}
    ensures book.Valid() && name in book.data
    ensures name in old(book.data) ==>
              && book.data == old(book.data) && book.order == old(book.order)
              && book.data[name].phones == old(book.data[name].phones)
    ensures name !in old(book.data) ==>
              && fresh(book.data[name])
              && book.data == old(book.data)[name := book.data[name]]
              && book.order == old(book.order) + [name]
              && book.data[name].phones == []
    ensures ParseDate(text).Some? ==> r == Ok("Birthday added.") && book.data[name].birthday == ParseDate(text)
    ensures ParseDate(text).None? ==>
              && r == Err(InvalidDate)
              && book.data[name].birthday == (if name in old(book.data) then old(book.data[name].birthday) else None)
  {
    var record := book.Find(name);
    if record == null {
      record := new Record(name);
      book.AddRecord(record);
    }
    var parsed := ParseDate(text);
    if parsed.None? {
      return Err(InvalidDate);
    }
    record.AddBirthday(parsed.value);
    return Ok("Birthday added.");
  }
}
