/**
 * Contact records and the pure rules of the contact book: input validation,
 * normalisation of empty optional fields to "N/A", the search query and the
 * search filter.
 */
module Contacts {
  import opened Text
  import opened Email

  /** One record: the four text fields stored in the contacts list. */
  datatype Contact = Contact(name: string, phone: string, email: string, address: string)

  /** The stored value of an optional field the user left empty. */
  const NotAvailable: string := "N/A"

  /** Python's `s or "N/A"`: an empty field becomes the sentinel. */
  function OrNotAvailable(s: string): string
  {
    if s == "" then NotAvailable else s
  }

  /** `validate_contact_input`: name and phone are both non-empty. */
  predicate ValidContactInput(name: string, phone: string)
  {
    name != "" && phone != ""
  }

  /** The guard of add and update: required fields present and the e-mail
      empty or valid. */
  predicate AcceptsInput(name: string, phone: string, email: string)
  {
    ValidContactInput(name, phone) && (email == "" || ValidEmail(email))
  }

  /** The record built by add and update from the four input fields. */
  function NewContact(name: string, phone: string, email: string, address: string): Contact
  {
    Contact(name, phone, OrNotAvailable(email), OrNotAvailable(address))
  }

  /** The record invariant: required fields present, e-mail either the
      sentinel or a non-empty valid address, address never empty. */
  predicate WellFormed(c: Contact)
  {
    && c.name != "" && c.phone != ""
    && (c.email == NotAvailable || (c.email != "" && ValidEmail(c.email)))
    && c.address != ""
  }

  predicate AllWellFormed(contacts: seq<Contact>)
  {
    forall j :: 0 <= j < |contacts| ==> WellFormed(contacts[j])
  }

  /** The sentinel is not itself an address the e-mail check accepts, so a
      stored "N/A" always means the field was left empty. */
  lemma NotAvailableIsNotAnEmail()
    ensures !ValidEmail(NotAvailable)
  {
  }

  /** Accepted input yields a well-formed record that keeps name and phone,
      keeps a non-empty e-mail and address and replaces empty ones by "N/A". */
  lemma NewContactWellFormed(name: string, phone: string, email: string, address: string)
    requires AcceptsInput(name, phone, email)
    ensures WellFormed(NewContact(name, phone, email, address))
    ensures NewContact(name, phone, email, address).name == name
    ensures NewContact(name, phone, email, address).phone == phone
    ensures email != "" <==> NewContact(name, phone, email, address).email == email
    ensures address != "" ==> NewContact(name, phone, email, address).address == address
  {
  }

  /** The search query: the name field if it is filled in, else the phone
      field (Python's `name or phone`). */
  function Query(name: string, phone: string): string
  {
    if name != "" then name else phone
  }

  /** A record matches when the query, ignoring case, occurs in its name, or
      occurs as written in its phone. */
  predicate Matches(query: string, c: Contact)
  {
    Contains(Lower(c.name), Lower(query)) || Contains(c.phone, query)
  }

  /** The records of `xs` that `keep` accepts, in their order in `xs`. */
  function Filter<T>(xs: seq<T>, keep: T -> bool): (r: seq<T>)
    ensures |r| <= |xs|
    ensures forall k :: 0 <= k < |r| ==> r[k] in xs && keep(r[k])
    decreases |xs|
  {
    if xs == [] then []
    else
      var rest := Filter(xs[1..], keep);
      if keep(xs[0]) then [xs[0]] + rest else rest
  }

  /** `positions` lists, in increasing order, exactly the indices of the
      elements of `xs` that `keep` accepts, and `r` holds those elements. */
  ghost predicate SelectsKept<T>(r: seq<T>, xs: seq<T>, keep: T -> bool, positions: seq<int>)
  {
    && |positions| == |r|
    && (forall k :: 0 <= k < |positions| ==> 0 <= positions[k] < |xs| && r[k] == xs[positions[k]])
    && (forall k, l :: 0 <= k < l < |positions| ==> positions[k] < positions[l])
    && (forall j :: 0 <= j < |xs| ==> (j in positions <==> keep(xs[j])))
  }

  /** Filter returns an order-preserving subsequence made of exactly the
      accepted elements. */
  lemma {:induction false} FilterSelectsKept<T>(xs: seq<T>, keep: T -> bool) returns (positions: seq<int>)
    ensures SelectsKept(Filter(xs, keep), xs, keep, positions)
    decreases |xs|
  {
    if xs == [] {
      positions := [];
    } else {
      var rest := Filter(xs[1..], keep);
      var tail := FilterSelectsKept(xs[1..], keep);
      var shifted := ShiftPositions(rest, xs, keep, tail);
      var r := Filter(xs, keep);
      if keep(xs[0]) {
        positions := [0] + shifted;
        assert r == [xs[0]] + rest;
        forall k | 0 <= k < |positions|
          ensures 0 <= positions[k] < |xs| && r[k] == xs[positions[k]]
        {
          if k > 0 {
            assert positions[k] == shifted[k - 1] && r[k] == rest[k - 1];
          }
        }
        forall j | 0 <= j < |xs|
          ensures j in positions <==> keep(xs[j])
        {
          assert j in positions <==> j == 0 || j in shifted;
        }
      } else {
        positions := shifted;
        assert r == rest;
      }
    }
  }

  /** The positions that select from `xs[1..]`, moved up by one, select the
      same elements from `xs` among its indices from 1 on. */
  lemma ShiftPositions<T>(rest: seq<T>, xs: seq<T>, keep: T -> bool, tail: seq<int>) returns (shifted: seq<int>)
    requires xs != [] && SelectsKept(rest, xs[1..], keep, tail)
    ensures |shifted| == |rest|
    ensures forall k :: 0 <= k < |shifted| ==> 1 <= shifted[k] < |xs| && rest[k] == xs[shifted[k]]
    ensures forall k, l :: 0 <= k < l < |shifted| ==> shifted[k] < shifted[l]
    ensures forall j :: 1 <= j < |xs| ==> (j in shifted <==> keep(xs[j]))
    ensures 0 !in shifted
  {
    shifted := seq(|tail|, k requires 0 <= k < |tail| => tail[k] + 1);
    forall j | 1 <= j < |xs|
      ensures j in shifted <==> keep(xs[j])
    {
      assert xs[j] == xs[1..][j - 1];
      if j - 1 in tail {
        var k :| 0 <= k < |tail| && tail[k] == j - 1;
        assert shifted[k] == j;
      }
    }
  }

  /** Filtering a concatenation filters each part. */
  lemma {:induction false} FilterAppend<T>(a: seq<T>, b: seq<T>, keep: T -> bool)
    ensures Filter(a + b, keep) == Filter(a, keep) + Filter(b, keep)
    decreases |a|
  {
    if a == [] {
      assert a + b == b;
    } else {
      assert (a + b)[1..] == a[1..] + b;
      FilterAppend(a[1..], b, keep);
    }
  }

  /** When `keep` accepts every element, filtering changes nothing. */
  lemma {:induction false} FilterKeepsAll<T>(xs: seq<T>, keep: T -> bool)
    requires forall j :: 0 <= j < |xs| ==> keep(xs[j])
    ensures Filter(xs, keep) == xs
    decreases |xs|
  {
    if xs != [] {
      FilterKeepsAll(xs[1..], keep);
    }
  }

  /** The list comprehension of `search_contact`: the matching records in
      list order. */
  function Search(contacts: seq<Contact>, query: string): (r: seq<Contact>)
    ensures |r| <= |contacts|
    ensures forall k :: 0 <= k < |r| ==> r[k] in contacts && Matches(query, r[k])
  {
    Filter(contacts, c => Matches(query, c))
  }

  /** Search returns an order-preserving subsequence made of exactly the
      matching records: `positions` are the indices of all matching records,
      increasing, and the results are the records at those indices. */
  lemma SearchSelectsMatches(contacts: seq<Contact>, query: string) returns (positions: seq<int>)
    ensures |positions| == |Search(contacts, query)|
    ensures forall k :: 0 <= k < |positions| ==>
      0 <= positions[k] < |contacts| && Search(contacts, query)[k] == contacts[positions[k]]
    ensures forall k, l :: 0 <= k < l < |positions| ==> positions[k] < positions[l]
    ensures forall j :: 0 <= j < |contacts| ==> (j in positions <==> Matches(query, contacts[j]))
  {
    positions := FilterSelectsKept(contacts, c => Matches(query, c));
  }

  /** Searching a concatenation searches each part. */
  lemma SearchAppend(a: seq<Contact>, b: seq<Contact>, query: string)
    ensures Search(a + b, query) == Search(a, query) + Search(b, query)
  {
    FilterAppend(a, b, c => Matches(query, c));
  }

  /** The empty query matches every record: searching for it returns the
      whole list. */
  lemma SearchEmptyQuery(contacts: seq<Contact>)
    ensures Search(contacts, "") == contacts
  {
    forall j | 0 <= j < |contacts|
      ensures Matches("", contacts[j])
    {
      assert OccursAt("", contacts[j].phone, 0);
    }
    FilterKeepsAll(contacts, c => Matches("", c));
  }

  /** Search finds nothing exactly when no record matches. */
  lemma SearchEmptyIff(contacts: seq<Contact>, query: string)
    ensures Search(contacts, query) == [] <==> forall j :: 0 <= j < |contacts| ==> !Matches(query, contacts[j])
  {
    var positions := SearchSelectsMatches(contacts, query);
    if Search(contacts, query) != [] {
      assert Matches(query, contacts[positions[0]]);
    }
  }
}
