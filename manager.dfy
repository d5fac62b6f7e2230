/**
 * The data layer of `ContactManager`: the in-memory list of contacts and the
 * add, update, delete and search operations on it. Entry widgets become
 * parameters, the listbox selection an `Option<nat>`, and message boxes the
 * returned outcome.
 */
module ContactBook {
  import opened Wrappers
  import opened Contacts

  /** What an operation reports to the user. */
  datatype Outcome = Success | ValidationError | SelectionError

  /** What reading `contacts.json` at start-up gave: no file, a file that is
      not valid JSON, or a decoded list of records. */
  datatype StoredFile = Missing | Unparsable | Records(records: seq<Contact>)

  class ContactManager {
    var contacts: seq<Contact>

    /** Start-up: the list is the decoded file, or empty when the file is
        missing or cannot be decoded. */
    constructor (file: StoredFile)
      ensures file.Records? ==> contacts == file.records
      ensures !file.Records? ==> contacts == []
    {
      match file
      case Records(records) =>
        contacts := records;
      case _ =>
        contacts := [];
    }

    /** `add_contact`: on accepted input the normalised record is appended;
        otherwise nothing changes. */
    method AddContact(name: string, phone: string, email: string, address: string) returns (outcome: Outcome)
      modifies this
      ensures outcome == (if AcceptsInput(name, phone, email) then Success else ValidationError)
      ensures outcome == Success ==> contacts == old(contacts) + [NewContact(name, phone, email, address)]
      ensures outcome != Success ==> contacts == old(contacts)
      ensures AllWellFormed(old(contacts)) ==> AllWellFormed(contacts)
    {
      if AcceptsInput(name, phone, email) {
        NewContactWellFormed(name, phone, email, address);
        contacts := contacts + [NewContact(name, phone, email, address)];
        outcome := Success;
      } else {
        outcome := ValidationError;
      }
    }

    /** `update_contact`: without a selection nothing changes; with one, on
        accepted input the selected record is replaced by the normalised new
        record and every other record stays where it was. */
    method UpdateContact(selected: Option<nat>, name: string, phone: string, email: string, address: string)
      returns (outcome: Outcome)
      requires selected.Some? ==> selected.value < |contacts|
      modifies this
      ensures outcome == (if selected.None? then SelectionError
                          else if AcceptsInput(name, phone, email) then Success
                          else ValidationError)
      ensures |contacts| == |old(contacts)|
      ensures outcome == Success ==> contacts[selected.value] == NewContact(name, phone, email, address)
      ensures forall j :: 0 <= j < |contacts| && (outcome != Success || j != selected.value) ==>
        contacts[j] == old(contacts)[j]
      ensures AllWellFormed(old(contacts)) ==> AllWellFormed(contacts)
    {
      match selected
      case None =>
        outcome := SelectionError;
      case Some(index) =>
        if AcceptsInput(name, phone, email) {
          NewContactWellFormed(name, phone, email, address);
          contacts := contacts[index := NewContact(name, phone, email, address)];
          outcome := Success;
        } else {
          outcome := ValidationError;
        }
    }

    /** `delete_contact`: without a selection nothing changes; with one, the
        selected record is removed and the later records move down by one. */
    method DeleteContact(selected: Option<nat>) returns (outcome: Outcome)
      requires selected.Some? ==> selected.value < |contacts|
      modifies this
      ensures outcome == (if selected.None? then SelectionError else Success)
      ensures selected.None? ==> contacts == old(contacts)
      ensures selected.Some? ==> |contacts| == |old(contacts)| - 1
      ensures selected.Some? ==> forall j :: 0 <= j < selected.value ==> contacts[j] == old(contacts)[j]
      ensures selected.Some? ==> forall j :: selected.value <= j < |contacts| ==> contacts[j] == old(contacts)[j + 1]
      ensures AllWellFormed(old(contacts)) ==> AllWellFormed(contacts)
    {
      match selected
      case None =>
        outcome := SelectionError;
      case Some(index) =>
        contacts := contacts[..index] + contacts[index + 1..];
        outcome := Success;
    }

    /** `search_contact`: the query is the name field, or the phone field when
        the name is empty. When some record matches, the listbox shows the
        matching records; when none does, the user is told so and the whole
        list is shown again. The list itself is not changed. */
    method SearchContact(name: string, phone: string) returns (found: bool, shown: seq<Contact>)
      ensures found <==> exists j :: 0 <= j < |contacts| && Matches(Query(name, phone), contacts[j])
      ensures found ==> shown == Search(contacts, Query(name, phone))
      ensures !found ==> shown == contacts
    {
      var query := Query(name, phone);
      var results := Search(contacts, query);
      SearchEmptyIff(contacts, query);
      if results != [] {
        found, shown := true, results;
      } else {
        found, shown := false, contacts;
      }
    }
  }
}
