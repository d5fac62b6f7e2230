# Contact book data layer in Dafny

This project models the data layer of `ContactManager` from `Contact_Book.py`, a
single-user desktop contact list. Contacts are records of four text fields
(name, phone, email, address). They are kept in an ordered list. Add, update
and delete change the list in place. Search filters it without changing it.
Add and update accept input only when the name and the phone are non-empty and
the email is empty or well-formed. Empty email and address fields are stored as
the sentinel `"N/A"`.

The tkinter shell is replaced by parameters and return values:

- The entry widgets become string parameters.
- The listbox selection becomes an `Option<nat>`.
- Message boxes become returned outcomes: `Success`, `ValidationError`,
  `SelectionError`. Search returns whether anything was found and the rows shown.

Modules, one per concern:

- `Text` (`text.dfy`): ASCII character classes, `Lower` (the model of
  `str.lower`), and `Contains` (Python's `in` on strings). `Contains` is proved
  equal to the existence of an occurrence.
- `Email` (`email.dfy`): `ValidEmail`, the model of `validate_email`. The regular
  expression `^[a-zA-Z0-9._%+-]+@[a-zA-Z0-9.-]+\.[a-zA-Z]{2,}$` is written as
  `SplitsAt(s, at, dot)`, which says the `@` is at `at` and the `\.` is at
  `dot`. `re.match` lets `$` match before one final newline, and `ValidEmail`
  models that too.
- `Contacts` (`contacts.dfy`): the `Contact` datatype, `ValidContactInput`,
  `AcceptsInput`, `NewContact` (the normalisation to `"N/A"`), the record
  invariant `WellFormed`, the query choice `Query`, the matching rule `Matches`
  and `Search`. `Search` is an instance of a generic order-preserving `Filter`.
- `ContactBook` (`manager.dfy`): class `ContactManager`. Its field
  `contacts: seq<Contact>` is reassigned by `AddContact`, `UpdateContact` and
  `DeleteContact`. `SearchContact` only reads it.
- `Scenarios` (`scenarios.dfy`): concrete emails and searches. Two client
  methods, `Session` and `SearchSession`, drive the class through the
  contracts alone.

Three behaviours of the code that the model keeps as written:

- Start-up load (`Contact_Book.py:187-198`): only a missing file and a JSON
  decoding error fall back to an empty list. Other read errors are not caught.
- The loaded records are not checked. The record invariant (non-empty name and
  phone; email `"N/A"` or valid; non-empty address) is therefore not assumed at
  start-up. Each mutation is proved to preserve it when it held before.
- Saving (`Contact_Book.py:179-185`) opens the file for writing and then
  dumps to it, so a failed write can leave it truncated. The write is not
  all-or-nothing.

## Model

| member | source | states |
|---|---|---|
| Text.Lower | Contact_Book.py:161 | upper-case ASCII letters move to lower case (code point + 32), every other character is kept, the length is kept, and no upper-case letter remains |
| Text.Contains | Contact_Book.py:161 | Python's `needle in hay` is true exactly when `needle` occurs at some position of `hay` |
| Text.MissingCharNotContained | Contact_Book.py:161 | a needle with a character the haystack lacks is not a substring of it |
| Email.SplitIsUnique | Contact_Book.py:143 | a match of the pattern has exactly one `@`; its `\.` is the last dot of the string; so the split into local part, domain and top-level domain is unique |
| Email.AcceptedShape | Contact_Book.py:141-144 | an accepted non-empty email has exactly one `@`, not first; a later dot is followed by at least two letters that run to the end of the string or to one final newline |
| Email.NoAtRejected | Contact_Book.py:143 | a string without `@` never matches the pattern |
| Contacts.NotAvailableIsNotAnEmail | Contact_Book.py:107 | the sentinel `"N/A"` is rejected by the email check, so a stored `"N/A"` always means the field was left empty |
| Contacts.NewContactWellFormed | Contact_Book.py:106-107 | accepted input gives a well-formed record; name and phone are kept; the email is kept exactly when it is non-empty; a non-empty address is kept |
| Contacts.Filter | Contact_Book.py:161 | the filter result is no longer than the list, and each of its elements is in the list and accepted |
| Contacts.FilterSelectsKept | Contact_Book.py:161 | the filter result is the elements at an increasing sequence of positions, and those positions are exactly the accepted ones |
| Contacts.FilterAppend | Contact_Book.py:161 | filtering a concatenation gives the concatenation of the filtered parts |
| Contacts.FilterKeepsAll | Contact_Book.py:161 | when every element is accepted, the filter returns the list itself |
| Contacts.Search | Contact_Book.py:161 | the search result is no longer than the list, and every result is a stored record that matches the query |
| Contacts.SearchSelectsMatches | Contact_Book.py:161 | the search result is an order-preserving subsequence; its positions are exactly the positions of the matching records |
| Contacts.SearchAppend | Contact_Book.py:161 | searching a concatenation gives the concatenation of the searches of the parts |
| Contacts.SearchEmptyQuery | Contact_Book.py:160-161 | the empty query matches every record, so searching for it returns the whole list |
| Contacts.SearchEmptyIff | Contact_Book.py:161-163 | the search result is empty exactly when no record matches the query |
| ContactBook.ContactManager.constructor | Contact_Book.py:187-198 | the list starts as the decoded file; it starts empty when the file is missing or does not decode |
| ContactBook.ContactManager.AddContact | Contact_Book.py:99-114 | success exactly when name and phone are non-empty and the email is empty or valid; on success the normalised record is appended and earlier records are unchanged; otherwise the list is unchanged; well-formedness is preserved |
| ContactBook.ContactManager.UpdateContact | Contact_Book.py:116-137 | no selection gives `SelectionError`; otherwise the add rule decides; the length is kept; on success the selected position holds the normalised record; every other position, and on failure every position, is unchanged; well-formedness is preserved |
| ContactBook.ContactManager.DeleteContact | Contact_Book.py:146-156 | no selection gives `SelectionError` and no change; with selection `i` the list is one shorter, positions before `i` are kept and later records move down by one; well-formedness is preserved |
| ContactBook.ContactManager.SearchContact | Contact_Book.py:158-169 | the query is the name, or the phone when the name is empty; `found` holds exactly when some record matches; the rows shown are the search result when found and the whole list otherwise; the list is not changed |
| Scenarios.PlainAddressAccepted | Contact_Book.py:143-144 | `alice@example.com` passes the email check |
| Scenarios.TrailingNewlineAccepted | Contact_Book.py:144 | `alice@example.com` followed by a newline passes the email check, because `$` matches before a final newline |
| Scenarios.AddressWithoutAtRejected | Contact_Book.py:143-144 | `not-an-email` fails the email check |
| Scenarios.OneLetterDomainRejected | Contact_Book.py:143 | `a@b.c` fails the email check, because the top-level domain needs two letters |
| Scenarios.NameMatchIgnoresCase | Contact_Book.py:161 | the query `ali` matches the name `Alice` |
| Scenarios.PhoneMatchIsSubstring | Contact_Book.py:161 | the query `555-99` matches the phone `555-9999` |
| Scenarios.SearchByName | Contact_Book.py:161 | in the list Alice, Bob, the query `ali` finds only Alice |
| Scenarios.SearchByPhone | Contact_Book.py:161 | in the list Alice, Bob, the query `555-99` finds only Bob |

## Left out

- Text.Lower: lower-cases ASCII letters only. Python's `str.lower` also folds non-ASCII letters, for example `É` to `é`, and the model does not.
- ContactBook.ContactManager.UpdateContact: requires the selected index to be below the list length, and reads it as an index into the full list. The listbox never shows more rows than the list holds, so the code's callers meet this. After a search narrows the listbox, the row number of the code can name a different record than the one shown. The model does not map display rows to list positions.
- ContactBook.ContactManager.DeleteContact: the same precondition and the same display-row caveat as `UpdateContact`.
- Saving (`save_contacts_to_file`, lines 179-185) is a JSON write to a file and is not part of this model. A failed save only shows an error and does not undo the in-memory change. The model's list after a mutation is therefore the list whatever the save does.
- Loading is represented by the `StoredFile` outcome given to the constructor. JSON decoding itself is not modelled. Two more steps are left out: writing an empty file when none exists, and the error message for a corrupt file.
- A decoded file that is not a list of four-field records is not modelled: `StoredFile` holds `Contact` records only.
- The tkinter window is presentation and is not modelled. This covers the `"name - phone"` listbox rows (`load_contacts`), `clear_list`, `clear_input_fields` and the message texts. The model keeps only each message's kind, as the outcome.
- `validate_email` also treats `None` as empty. The model's inputs are always strings.
