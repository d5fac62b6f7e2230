/**
 * Concrete inputs for the e-mail check and a session with the contact book,
 * stated as lemmas and as a client of `ContactManager` that uses only the
 * operations' contracts.
 */
module Scenarios {
  import opened Wrappers
  import opened Text
  import opened Email
  import opened Contacts
  import opened ContactBook

  lemma PlainAddressAccepted()
    ensures ValidEmail("alice@example.com")
  {
    assert SplitsAt("alice@example.com", 5, 13);
  }

  /** Python's `$` also matches before a final newline, so the check accepts
      an address followed by one newline. */
  lemma TrailingNewlineAccepted()
    ensures ValidEmail("alice@example.com\n")
  {
    assert "alice@example.com\n"[..17] == "alice@example.com";
    PlainAddressAccepted();
  }

  lemma AddressWithoutAtRejected()
    ensures !ValidEmail("not-an-email")
  {
  }

  /** The top-level domain needs at least two letters. */
  lemma OneLetterDomainRejected()
    ensures !ValidEmail("a@b.c")
  {
  }

  lemma NameMatchIgnoresCase()
    ensures Matches("ali", NewContact("Alice", "555-1234", "alice@example.com", ""))
  {
    assert Lower("Alice")[0..3] == "ali";
    assert OccursAt(Lower("ali"), Lower("Alice"), 0);
  }

  lemma PhoneMatchIsSubstring()
    ensures Matches("555-99", NewContact("Bob", "555-9999", "", "Main St"))
  {
  }

  const Alice := NewContact("Alice", "555-1234", "alice@example.com", "")
  const Bob := NewContact("Bob", "555-9999", "", "Main St")

  /** A case-insensitive name query finds Alice only. */
  lemma SearchByName()
    ensures Search([Alice, Bob], "ali") == [Alice]
  {
    NameMatchIgnoresCase();
    assert Lower("ali") == "ali" && Lower("Bob") == "bob";
    MissingCharNotContained("bob", "ali", 0);
    MissingCharNotContained("555-9999", "ali", 0);
    SearchAppend([Alice], [Bob], "ali");
  }

  /** A phone query finds Bob only. */
  lemma SearchByPhone()
    ensures Search([Alice, Bob], "555-99") == [Bob]
  {
    PhoneMatchIsSubstring();
    assert Lower("555-99") == "555-99" && Lower("Alice") == "alice";
    MissingCharNotContained("alice", "555-99", 4);
    MissingCharNotContained("555-1234", "555-99", 4);
    SearchAppend([Alice], [Bob], "555-99");
  }

  /** An empty store; Alice is added; Bob with a malformed e-mail is
      refused; Bob without e-mail is added; an update without a selection is
      refused; Alice is deleted. */
  method Session()
  {
    var book := new ContactManager(Missing);
    assert book.contacts == [];

    PlainAddressAccepted();
    var outcome := book.AddContact("Alice", "555-1234", "alice@example.com", "");
    assert outcome == Success;
    assert book.contacts == [Alice];

    AddressWithoutAtRejected();
    outcome := book.AddContact("Bob", "555-9999", "not-an-email", "Main St");
    assert outcome == ValidationError && book.contacts == [Alice];

    outcome := book.AddContact("Bob", "555-9999", "", "Main St");
    assert book.contacts == [Alice, Bob];

    outcome := book.UpdateContact(None, "Carol", "555-0000", "", "");
    assert outcome == SelectionError && book.contacts == [Alice, Bob];

    outcome := book.DeleteContact(Some(0));
    assert outcome == Success && book.contacts == [Bob];
  }

  /** A list of Alice and Bob loaded from the file: a name query and a phone
      query each find one record and leave the list as it was. */
  method SearchSession()
  {
    var book := new ContactManager(Records([Alice, Bob]));
    var found, shown := book.SearchContact("ali", "");
    SearchByName();
    NameMatchIgnoresCase();
    assert Matches("ali", book.contacts[0]);
    assert found && shown == [Alice];

    found, shown := book.SearchContact("", "555-99");
    SearchByPhone();
    PhoneMatchIsSubstring();
    assert Matches("555-99", book.contacts[1]);
    assert found && shown == [Bob];
    assert book.contacts == [Alice, Bob];
  }
}
