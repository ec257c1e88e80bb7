/**
 * The `contacts` table behind the Room DAO `ContactDao`: insert a row, update a
 * row by primary key, delete a row by primary key, and read all rows ordered
 * by name. The table is a sequence of rows (its order carries no meaning);
 * the query gives them back sorted.
 */
module ContactStore {
  import opened Text
  import opened Seqs

  /** One row of the `contacts` table; `id` is its primary key. */
  datatype Contact = Contact(id: int, name: string, phoneNumber: string)

  /** The primary keys present in `rows`. */
  function Ids(rows: seq<Contact>): set<int> {
    set r | r in rows :: r.id
  }

  /** No two rows share a primary key. */
  predicate UniqueIds(rows: seq<Contact>) {
    forall i, j :: 0 <= i < j < |rows| ==> rows[i].id != rows[j].id
  }

  /** What `@Update` does to the table: the row whose key is `c.id`, if any, becomes `c`. */
  function UpdateRow(rows: seq<Contact>, c: Contact): (r: seq<Contact>)
    ensures |r| == |rows|
    ensures forall i :: 0 <= i < |rows| && rows[i].id != c.id ==> r[i] == rows[i]
    ensures forall i :: 0 <= i < |rows| && rows[i].id == c.id ==> r[i] == c
  {
    if rows == [] then []
    else [if rows[0].id == c.id then c else rows[0]] + UpdateRow(rows[1..], c)
  }

  /** What `@Delete` does to the table: every row whose key is `id` goes, the others stay in order. */
  function DeleteRow(rows: seq<Contact>, id: int): (r: seq<Contact>)
    ensures IsSubsequence(r, rows)
    ensures forall x :: x in r <==> x in rows && x.id != id
  {
    if rows == [] then []
    else if rows[0].id == id then DeleteRow(rows[1..], id)
    else [rows[0]] + DeleteRow(rows[1..], id)
  }

  /** An update never changes which keys are present, so keys stay unique. */
  lemma UpdateKeepsIds(rows: seq<Contact>, c: Contact)
    requires UniqueIds(rows)
    ensures Ids(UpdateRow(rows, c)) == Ids(rows)
    ensures UniqueIds(UpdateRow(rows, c))
  {
    var r := UpdateRow(rows, c);
    forall k | k in Ids(r) ensures k in Ids(rows) {
      var i :| 0 <= i < |r| && r[i].id == k;
      assert rows[i] in rows;
    }
    forall k | k in Ids(rows) ensures k in Ids(r) {
      var i :| 0 <= i < |rows| && rows[i].id == k;
      assert r[i] in r;
    }
  }

  /** Updating a key that is not in the table leaves the table as it was. */
  lemma UpdateAbsent(rows: seq<Contact>, c: Contact)
    requires c.id !in Ids(rows)
    ensures UpdateRow(rows, c) == rows
  {
    forall i | 0 <= i < |rows| ensures rows[i].id != c.id {
      assert rows[i] in rows;
    }
  }

  /** Updating a present key puts `c` in the table, once, in place of the old row. */
  lemma UpdatePresent(rows: seq<Contact>, c: Contact) returns (k: nat)
    requires UniqueIds(rows) && c.id in Ids(rows)
    ensures k < |rows| && rows[k].id == c.id
    ensures UpdateRow(rows, c) == rows[k := c]
  {
    var x :| x in rows && x.id == c.id;
    k :| 0 <= k < |rows| && rows[k] == x;
  }

  /** Deleting a key that is not in the table leaves the table as it was. */
  lemma {:induction false} DeleteAbsent(rows: seq<Contact>, id: int)
    requires id !in Ids(rows)
    ensures DeleteRow(rows, id) == rows
  {
    if rows != [] {
      assert rows[0] in rows;
      assert Ids(rows[1..]) <= Ids(rows);
      DeleteAbsent(rows[1..], id);
      assert rows == [rows[0]] + rows[1..];
    }
  }

  /** With unique keys, deleting a stored row removes exactly that row. */
  lemma {:induction false} DeletePresent(rows: seq<Contact>, row: Contact)
    requires UniqueIds(rows) && row in rows
    ensures multiset(DeleteRow(rows, row.id)) == multiset(rows) - multiset{row}
    ensures |DeleteRow(rows, row.id)| == |rows| - 1
  {
    assert rows == [rows[0]] + rows[1..];
    if rows[0] == row {
      assert row.id !in Ids(rows[1..]);
      DeleteAbsent(rows[1..], row.id);
    } else {
      assert rows[0].id != row.id by {
        var j :| 0 <= j < |rows| && rows[j] == row;
      }
      DeletePresent(rows[1..], row);
    }
  }

  /** Deleting keeps keys unique. */
  lemma DeleteKeepsUnique(rows: seq<Contact>, id: int)
    requires UniqueIds(rows)
    ensures UniqueIds(DeleteRow(rows, id)) && Ids(DeleteRow(rows, id)) == Ids(rows) - {id}
  {
    var r := DeleteRow(rows, id);
    DeleteKeepsUniqueRec(rows, id);
    forall k | k in Ids(rows) - {id} ensures k in Ids(r) {
      var x :| x in rows && x.id == k;
      assert x in r;
    }
  }

  lemma {:induction false} DeleteKeepsUniqueRec(rows: seq<Contact>, id: int)
    requires UniqueIds(rows)
    ensures UniqueIds(DeleteRow(rows, id))
  {
    if rows != [] {
      DeleteKeepsUniqueRec(rows[1..], id);
      var rest := DeleteRow(rows[1..], id);
      forall x | x in rest ensures x.id != rows[0].id {
        var j :| 0 <= j < |rows[1..]| && rows[1..][j] == x;
        assert rows[j + 1] == x;
      }
    }
  }

  /** The order of `ORDER BY name ASC`: names non-decreasing. */
  predicate SortedByName(s: seq<Contact>) {
    forall i, j :: 0 <= i < j < |s| ==> LessOrEqual(s[i].name, s[j].name)
  }

  /** `x` placed into the sorted `s` before the first row whose name is not smaller. */
  function InsertByName(x: Contact, s: seq<Contact>): (r: seq<Contact>)
    requires SortedByName(s)
    ensures SortedByName(r) && multiset(r) == multiset(s) + multiset{x}
  {
    if s == [] then [x]
    else if LessOrEqual(x.name, s[0].name) then
      assert forall j :: 0 <= j < |s| ==> LessOrEqual(x.name, s[j].name) by {
        forall j | 0 <= j < |s| ensures LessOrEqual(x.name, s[j].name) {
          if j > 0 { LessOrEqualTransitive(x.name, s[0].name, s[j].name); }
        }
      }
      assert s == [s[0]] + s[1..];
      [x] + s
    else
      var rest := InsertByName(x, s[1..]);
      LessOrEqualTotal(x.name, s[0].name);
      assert s == [s[0]] + s[1..];
      assert forall y :: y in rest ==> LessOrEqual(s[0].name, y.name) by {
        forall y | y in rest ensures LessOrEqual(s[0].name, y.name) {
          assert y in multiset(rest);
          if y != x {
            assert y in multiset(s[1..]);
            var j :| 0 <= j < |s[1..]| && s[1..][j] == y;
            assert s[j + 1] == y;
          }
        }
      }
      var r := [s[0]] + rest;
      assert forall j :: 0 < j < |r| ==> r[j] in rest;
      r
  }

  /** The rows in the order `SELECT * FROM contacts ORDER BY name ASC` gives them. */
  function SortByName(rows: seq<Contact>): (r: seq<Contact>)
    ensures SortedByName(r) && multiset(r) == multiset(rows)
  {
    if rows == [] then []
    else
      assert rows == [rows[0]] + rows[1..];
      InsertByName(rows[0], SortByName(rows[1..]))
  }

  /** With unique keys every row occurs once in the table. */
  lemma {:induction false} UniqueRowsOnce(rows: seq<Contact>)
    requires UniqueIds(rows)
    ensures forall x :: x in rows ==> multiset(rows)[x] == 1
  {
    if rows != [] {
      assert rows == [rows[0]] + rows[1..];
      UniqueRowsOnce(rows[1..]);
      assert rows[0] !in rows[1..] by {
        forall j | 0 <= j < |rows[1..]| ensures rows[1..][j] != rows[0] {
          assert rows[1..][j] == rows[j + 1];
        }
      }
    }
  }

  /** After an insert with a fresh key, the next query lists the new row exactly once. */
  lemma InsertedRowListed(rows: seq<Contact>, row: Contact)
    requires UniqueIds(rows) && row.id !in Ids(rows)
    ensures multiset(SortByName(rows + [row]))[row] == 1
  {
    forall x | x in rows ensures x != row {
      assert x.id in Ids(rows);
    }
  }

  /**
   * After an update of a stored key, the next query lists the new row, and
   * no other row with that key: the contact changed, nothing was added.
   */
  lemma UpdatedRowListed(rows: seq<Contact>, c: Contact)
    requires UniqueIds(rows) && c.id in Ids(rows)
    ensures c in SortByName(UpdateRow(rows, c))
    ensures |SortByName(UpdateRow(rows, c))| == |rows|
    ensures forall x :: x in SortByName(UpdateRow(rows, c)) && x.id == c.id ==> x == c
  {
    var k := UpdatePresent(rows, c);
    var r := UpdateRow(rows, c);
    UpdateKeepsIds(rows, c);
    OnlyRowWithItsKey(r, k);
    var sorted := SortByName(r);
    assert multiset(sorted) == multiset(r);
    assert forall x :: x in sorted <==> x in r by {
      forall x ensures x in sorted <==> x in r {
        assert x in sorted <==> x in multiset(sorted);
        assert x in r <==> x in multiset(r);
      }
    }
    assert |sorted| == |r| by {
      assert |sorted| == |multiset(sorted)|;
      assert |r| == |multiset(r)|;
    }
  }

  /** With unique keys, the row at index `k` is the only row with its key. */
  lemma OnlyRowWithItsKey(r: seq<Contact>, k: nat)
    requires UniqueIds(r) && k < |r|
    ensures forall x :: x in r && x.id == r[k].id ==> x == r[k]
  {
    forall x | x in r && x.id == r[k].id ensures x == r[k] {
      var j :| 0 <= j < |r| && r[j] == x;
      assert j == k;
    }
  }

  /**
   * An update whose key was deleted before it arrived is lost: the table
   * after the delete and the update is the table after the delete alone.
   */
  lemma UpdateAfterDeleteIsLost(rows: seq<Contact>, id: int, c: Contact)
    requires c.id == id
    ensures UpdateRow(DeleteRow(rows, id), c) == DeleteRow(rows, id)
  {
    var r := DeleteRow(rows, id);
    forall x | x in r ensures x.id != id {
    }
    UpdateAbsent(r, c);
  }

  /** The DAO over the `contacts` table, with its auto-generated key counter. */
  class ContactTable {
    /** The stored rows. */
    var rows: seq<Contact>
    /** The key the next insert receives (keys are never reused). */
    var nextId: int

    ghost predicate Valid()
      reads this
    {
      1 <= nextId && UniqueIds(rows) && forall r :: r in rows ==> 1 <= r.id < nextId
    }

    constructor ()
      ensures Valid() && rows == [] && nextId == 1
    {
      rows := [];
      nextId := 1;
    }

    /** `@Insert`: a new row with the contact's fields and a freshly generated key. */
    method Insert(contact: Contact)
      requires Valid()
      modifies this
      ensures Valid()
      ensures old(nextId) !in Ids(old(rows))
      ensures rows == old(rows) + [contact.(id := old(nextId))]
      ensures nextId == old(nextId) + 1
    {
      var row := contact.(id := nextId);
      rows := rows + [row];
      nextId := nextId + 1;
    }

    /** `@Update`: the row with the contact's key takes the contact's fields. */
    method Update(contact: Contact)
      requires Valid()
      modifies this
      ensures Valid()
      ensures rows == UpdateRow(old(rows), contact) && nextId == old(nextId)
    {
      UpdateKeepsIds(rows, contact);
      var r := UpdateRow(rows, contact);
      assert forall x :: x in r ==> x.id in Ids(r);
      rows := r;
    }

    /** `@Delete`: the row with the contact's key goes. */
    method Delete(contact: Contact)
      requires Valid()
      modifies this
      ensures Valid()
      ensures rows == DeleteRow(old(rows), contact.id) && nextId == old(nextId)
    {
      DeleteKeepsUnique(rows, contact.id);
      rows := DeleteRow(rows, contact.id);
    }

    /** `getAllContacts()`: every stored row exactly once, names non-decreasing. */
    function GetAllContacts(): (r: seq<Contact>)
      reads this
      ensures SortedByName(r) && multiset(r) == multiset(rows)
    {
      SortByName(rows)
    }
  }
}
