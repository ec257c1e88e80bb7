/**
 * The search box of the contact list: the rows shown are those whose name
 * contains the query ignoring case, or whose phone number contains it
 * literally, in the order the query delivered them.
 */
module ContactSearch {
  import opened Text
  import opened Seqs
  import opened ContactStore

  /** The test the list's `filter` applies to one contact. */
  predicate Matches(c: Contact, query: string) {
    ContainsIgnoreCase(c.name, query) || Contains(c.phoneNumber, query)
  }

  /** `allContacts.filter { ... }`: the matching contacts, in their original order. */
  function Filter(contacts: seq<Contact>, query: string): (r: seq<Contact>)
    ensures forall c :: c in r <==> c in contacts && Matches(c, query)
  {
    if contacts == [] then []
    else if Matches(contacts[0], query) then [contacts[0]] + Filter(contacts[1..], query)
    else Filter(contacts[1..], query)
  }

  /** The filtered list is a subsequence of the full list: nothing is reordered. */
  lemma {:induction false} FilterIsSubsequence(contacts: seq<Contact>, query: string)
    ensures IsSubsequence(Filter(contacts, query), contacts)
  {
    if contacts != [] {
      FilterIsSubsequence(contacts[1..], query);
    }
  }

  /** Every matching contact is kept as often as it occurs, every other contact dropped. */
  lemma {:induction false} FilterCounts(contacts: seq<Contact>, query: string, c: Contact)
    ensures multiset(Filter(contacts, query))[c] == if Matches(c, query) then multiset(contacts)[c] else 0
  {
    if contacts != [] {
      FilterCounts(contacts[1..], query, c);
      assert contacts == [contacts[0]] + contacts[1..];
    }
  }

  /** An empty query shows the whole list, unchanged and in order. */
  lemma {:induction false} FilterEmptyQuery(contacts: seq<Contact>)
    ensures Filter(contacts, "") == contacts
  {
    if contacts != [] {
      assert Matches(contacts[0], "") by {
        assert StartsWithIgnoreCase(contacts[0].name, "");
      }
      FilterEmptyQuery(contacts[1..]);
      assert contacts == [contacts[0]] + contacts[1..];
    }
  }

  /** Filtering the filtered list again with the same query changes nothing. */
  lemma {:induction false} FilterIdempotent(contacts: seq<Contact>, query: string)
    ensures Filter(Filter(contacts, query), query) == Filter(contacts, query)
  {
    if contacts != [] {
      FilterIdempotent(contacts[1..], query);
    }
  }

  /** Filtering a list sorted by name gives a list sorted by name. */
  lemma {:induction false} FilterKeepsOrder(contacts: seq<Contact>, query: string)
    requires SortedByName(contacts)
    ensures SortedByName(Filter(contacts, query))
  {
    if contacts != [] {
      FilterKeepsOrder(contacts[1..], query);
      var rest := Filter(contacts[1..], query);
      forall y | y in rest ensures LessOrEqual(contacts[0].name, y.name) {
        var j :| 0 <= j < |contacts[1..]| && contacts[1..][j] == y;
        assert contacts[j + 1] == y;
      }
      var r := [contacts[0]] + rest;
      assert forall j :: 0 < j < |r| ==> r[j] in rest;
    }
  }

  /** The first contact of the example list. */
  const Nguyen := Contact(1, "Nguyen Van A", "0123456789")
  /** The second contact of the example list. */
  const Le := Contact(2, "Le Thi B", "0987654321")

  // Facts of the example, one per lemma: several literal strings unfolded in one proof context
  // exceed the solver's budget, so each fact gets its own.

  lemma FirstNameHasA()
    ensures ContainsIgnoreCase("Nguyen Van A", "a")
  {
    NameContainsAt("Nguyen Van A", 8, "a");
  }

  lemma SecondNameHasNoA()
    ensures !ContainsIgnoreCase("Le Thi B", "a")
  {
    NoFirstCharNoMatch("Le Thi B", "a");
  }

  lemma SecondNameHasL()
    ensures ContainsIgnoreCase("Le Thi B", "l")
  {
    NameContainsAt("Le Thi B", 0, "l");
  }

  lemma FirstNameHasNoL()
    ensures !ContainsIgnoreCase("Nguyen Van A", "l")
  {
    NoFirstCharNoMatch("Nguyen Van A", "l");
  }

  lemma SecondNameHasNoDigits()
    ensures !ContainsIgnoreCase("Le Thi B", "0123")
  {
    NoFirstCharNoMatch("Le Thi B", "0123");
  }

  lemma SecondPhoneHasNoA()
    ensures !Contains("0987654321", "a")
  {
    NoFirstCharNoOccurrence("0987654321", "a");
  }

  lemma FirstPhoneHasNoL()
    ensures !Contains("0123456789", "l")
  {
    NoFirstCharNoOccurrence("0123456789", "l");
  }

  /** The second number has no "0123": its only 0 is its first digit, followed by 9. */
  lemma SecondPhoneLacks0123()
    ensures !Contains("0987654321", "0123")
  {
    var phone: string := "0987654321";
    ContainsOccurrence(phone, "0123");
    forall i | 0 <= i <= |phone| - 4 ensures !OccursAt(phone, "0123", i) {
      if i == 0 {
        assert phone[1] == '9';
      } else {
        assert phone[i] != '0';
      }
    }
  }

  /** The filter over a two-element list, as the step the example lemmas need. */
  lemma FilterPair(a: Contact, b: Contact, query: string)
    ensures Filter([a, b], query) ==
      (if Matches(a, query) then [a] else []) + (if Matches(b, query) then [b] else [])
  {
    assert [a, b][1..] == [b];
    assert [b][1..] == [];
    assert Filter([b], query) == (if Matches(b, query) then [b] else []);
  }

  /**
   * Two stored contacts: the query "0123" shows only the one whose number
   * begins with it; "a" shows only "Nguyen Van A" ("Le Thi B" has no a in
   * either case); "l" shows only "Le Thi B", matching its capital L.
   */
  lemma SearchScenario()
    ensures Filter([Nguyen, Le], "0123") == [Nguyen]
    ensures Filter([Nguyen, Le], "a") == [Nguyen]
    ensures Filter([Nguyen, Le], "l") == [Le]
  {
    SecondNameHasNoDigits();
    SecondPhoneLacks0123();
    assert "0123" <= Nguyen.phoneNumber;
    FilterPair(Nguyen, Le, "0123");
    FirstNameHasA();
    SecondNameHasNoA();
    SecondPhoneHasNoA();
    FilterPair(Nguyen, Le, "a");
    SecondNameHasL();
    FirstNameHasNoL();
    FirstPhoneHasNoL();
    FilterPair(Nguyen, Le, "l");
  }

  /** A name that has the query at position `k` contains it. */
  lemma {:induction false} NameContainsAt(s: string, k: nat, query: string)
    requires k <= |s| && StartsWithIgnoreCase(s[k..], query)
    ensures ContainsIgnoreCase(s, query)
    decreases k
  {
    if k > 0 {
      assert s[1..][k - 1..] == s[k..];
      NameContainsAt(s[1..], k - 1, query);
    }
  }
}
