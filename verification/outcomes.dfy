/** The exceptions the contact book raises, and the value wrappers that carry them. */
module Outcomes {

  /** One constructor per exception the modelled operations raise once their arguments are unpacked. */
  datatype Error =
    | InvalidPhone       // ValueError from Phone.__init__: not ten digits
    | PhoneNotFound      // bare ValueError from edit_phone / remove_phone; "Number not found"
    | ContactNotFound    // ValueError("Contact not found") from change_contact
    | NoSuchContact      // KeyError from AddressBook.delete
    | InvalidDate        // ValueError from date.replace or from parsing a birthday
    | DateOverflow       // OverflowError from date + timedelta

  datatype Option<+T> = None | Some(value: T)

  datatype Result<+T> = Ok(value: T) | Err(error: Error)

  /** The outcome of an operation that returns nothing in the source (or raises). */
  datatype Outcome = Pass | Fail(error: Error)
}
