/**
 * The contact screen `ContactsContent`: the text buffers and the optional
 * contact references it remembers, and the click handlers that change them
 * and call the store. The view-model between the screen and the DAO only
 * forwards each call, so the screen calls the table directly.
 */
module ContactsScreen {
  import opened Wrappers
  import opened Text
  import opened ContactStore
  import opened ContactSearch
  import opened Seqs

  /** What pressing the submit button decides about the two buffers. */
  datatype Submission =
    | Blank                                        // a buffer is empty after trimming: nothing happens
    | BadPhone                                     // the number is not ten digits: only a notice is shown
    | Accepted(name: string, phoneNumber: string)  // the trimmed values go to the store

  /** The checks of the submit button, on the current name and phone buffers. */
  function Validate(nameText: string, phoneText: string): (v: Submission)
    ensures v.Blank? <==> IsBlank(nameText) || IsBlank(phoneText)
    ensures v.BadPhone? <==> !IsBlank(nameText) && !IsBlank(phoneText) && !IsTenDigits(Trim(phoneText))
    ensures v.Accepted? ==> v.name == Trim(nameText) && v.phoneNumber == Trim(phoneText)
    ensures v.Accepted? ==> v.name != [] && Trim(v.name) == v.name && IsTenDigits(v.phoneNumber)
  {
    var contactName := Trim(nameText);
    var contactPhone := Trim(phoneText);
    assert IsBlank(contactName) <==> IsBlank(nameText) by { TrimBlank(nameText); }
    assert IsBlank(contactPhone) <==> IsBlank(phoneText) by { TrimBlank(phoneText); }
    assert !IsBlank(contactName) ==> contactName != [] && Trim(contactName) == contactName by {
      TrimBlank(nameText);
      TrimIdempotent(nameText);
    }
    if !IsBlank(contactName) && !IsBlank(contactPhone) then
      if IsTenDigits(contactPhone) then Accepted(contactName, contactPhone) else BadPhone
    else
      Blank
  }

  /** Submitting values that were accepted once accepts the same values again. */
  lemma ValidateIdempotent(nameText: string, phoneText: string)
    ensures var v := Validate(nameText, phoneText);
      v.Accepted? ==> Validate(v.name, v.phoneNumber) == v
  {
    var v := Validate(nameText, phoneText);
    if v.Accepted? {
      TenDigitsTrimmed(v.phoneNumber);
      TrimBlank(v.name);
    }
  }

  /** The state `ContactsContent` remembers between recompositions. */
  class ContactsContent {
    /** The store behind the view-model. */
    const dao: ContactTable
    /** The name field's text. */
    var name: string
    /** The phone field's text. */
    var phoneNumber: string
    /** The search field's text. */
    var searchQuery: string
    /** The contact whose detail dialog is open. */
    var selectedContact: Option<Contact>
    /** The contact being edited; the submit button updates instead of adding while it is set. */
    var editingContact: Option<Contact>
    /** The contact whose delete confirmation is open. */
    var deletingContact: Option<Contact>

    ghost predicate Valid()
      reads this, dao
    {
      dao.Valid()
    }

    constructor (dao: ContactTable)
      requires dao.Valid()
      ensures Valid() && this.dao == dao
      ensures name == "" && phoneNumber == "" && searchQuery == ""
      ensures selectedContact == None && editingContact == None && deletingContact == None
    {
      this.dao := dao;
      name, phoneNumber, searchQuery := "", "", "";
      selectedContact, editingContact, deletingContact := None, None, None;
    }

    /**
     * `filteredContacts`: the stored contacts that match the search text,
     * sorted by name as the query delivers them.
     */
    function FilteredContacts(): (r: seq<Contact>)
      reads this, dao
      ensures SortedByName(r)
      ensures forall c :: c in r <==> c in dao.rows && Matches(c, searchQuery)
      ensures IsSubsequence(r, dao.GetAllContacts())
      ensures forall c :: multiset(r)[c] == if Matches(c, searchQuery) then multiset(dao.rows)[c] else 0
    {
      var all := dao.GetAllContacts();
      assert forall c :: c in all <==> c in multiset(all);
      FilterKeepsOrder(all, searchQuery);
      FilterIsSubsequence(all, searchQuery);
      forall c ensures multiset(Filter(all, searchQuery))[c] == if Matches(c, searchQuery) then multiset(dao.rows)[c] else 0 {
        FilterCounts(all, searchQuery, c);
      }
      Filter(all, searchQuery)
    }

    /** With the store's keys unique, every matching stored row is listed exactly once. */
    lemma FilteredOnce()
      requires Valid()
      ensures forall c :: c in dao.rows && Matches(c, searchQuery) ==> multiset(FilteredContacts())[c] == 1
    {
      UniqueRowsOnce(dao.rows);
    }

    /** Typing in the search field. */
    method OnSearchQueryChange(text: string)
      modifies this`searchQuery
      ensures searchQuery == text
    {
      searchQuery := text;
    }

    /** Typing in the name field. */
    method OnNameChange(text: string)
      modifies this`name
      ensures name == text
    {
      name := text;
    }

    /** Typing in the phone field. */
    method OnPhoneNumberChange(text: string)
      modifies this`phoneNumber
      ensures phoneNumber == text
    {
      phoneNumber := text;
    }

    /** Tapping a row opens its detail dialog. */
    method Select(contact: Contact)
      modifies this`selectedContact
      ensures selectedContact == Some(contact)
    {
      selectedContact := Some(contact);
    }

    /** The edit button of a row: edit mode, with the buffers pre-filled from the row. */
    method BeginEdit(contact: Contact)
      modifies this`editingContact, this`name, this`phoneNumber
      ensures editingContact == Some(contact)
      ensures name == contact.name && phoneNumber == contact.phoneNumber
    {
      editingContact := Some(contact);
      name := contact.name;
      phoneNumber := contact.phoneNumber;
    }

    /** The delete button of a row opens the confirmation for it. */
    method BeginDelete(contact: Contact)
      modifies this`deletingContact
      ensures deletingContact == Some(contact)
    {
      deletingContact := Some(contact);
    }

    /**
     * The add/update button. A blank buffer or a malformed number changes
     * nothing (the latter shows a notice); otherwise the trimmed values are
     * inserted, or written over the edited contact's row, and the buffers
     * are cleared.
     */
    method Submit() returns (outcome: Submission)
      requires Valid()
      modifies this`name, this`phoneNumber, this`editingContact, dao
      ensures Valid()
      ensures outcome == Validate(old(name), old(phoneNumber))
      ensures !outcome.Accepted? ==> unchanged(this) && unchanged(dao)
      ensures outcome.Accepted? ==> name == "" && phoneNumber == "" && editingContact == None
      ensures outcome.Accepted? && old(editingContact).None? ==>
        dao.rows == old(dao.rows) + [Contact(old(dao.nextId), outcome.name, outcome.phoneNumber)]
        && dao.nextId == old(dao.nextId) + 1
      ensures outcome.Accepted? && old(editingContact).Some? ==>
        dao.rows == UpdateRow(old(dao.rows), Contact(old(editingContact).value.id, outcome.name, outcome.phoneNumber))
        && dao.nextId == old(dao.nextId)
    {
      outcome := Validate(name, phoneNumber);
      if !outcome.Accepted? {
        return;
      }
      var contactName, contactPhone := outcome.name, outcome.phoneNumber;
      if editingContact.None? {
        dao.Insert(Contact(0, contactName, contactPhone));
      } else {
        var updatedContact := editingContact.value.(name := contactName, phoneNumber := contactPhone);
        dao.Update(updatedContact);
        editingContact := None;
      }
      name := "";
      phoneNumber := "";
    }

    /** Closing the detail dialog, by its close button or by dismissing it. */
    method CloseDetail()
      modifies this`selectedContact
      ensures selectedContact == None
    {
      selectedContact := None;
    }

    /** The call button of the detail dialog: the number handed to the dialer, and the dialog closes. */
    method Call() returns (number: string)
      requires selectedContact.Some?
      modifies this`selectedContact
      ensures number == old(selectedContact).value.phoneNumber
      ensures selectedContact == None
    {
      number := selectedContact.value.phoneNumber;
      selectedContact := None;
    }

    /** The confirm button of the delete dialog: the contact's row goes and the dialog closes. */
    method ConfirmDelete()
      requires Valid() && deletingContact.Some?
      modifies this`deletingContact, dao
      ensures Valid()
      ensures dao.rows == DeleteRow(old(dao.rows), old(deletingContact).value.id)
      ensures dao.nextId == old(dao.nextId)
      ensures deletingContact == None
    {
      dao.Delete(deletingContact.value);
      deletingContact := None;
    }

    /** The cancel button of the delete dialog, or dismissing it: no store call. */
    method CancelDelete()
      modifies this`deletingContact
      ensures deletingContact == None
    {
      deletingContact := None;
    }
  }
}
