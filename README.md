# PhoneApp contact list, modelled in Dafny

This project models the contact list of the PhoneApp Android application:

- the `contacts` table reached through the Room DAO `ContactDao`, which inserts rows, updates and deletes rows by primary key, and lists all rows ordered by name;
- the contact screen `ContactsContent`:
  - the search filter over the listed contacts;
  - the text buffers and the optional selected, edited and pending-deletion contacts it remembers;
  - the click handlers that change that state and call the store: edit, submit (add or update), delete with confirmation, select, close and call;
- the bottom bar's `isRouteActive` test.

Files:

- `text.dfy` (module `Text`): the Kotlin string operations the screen relies on. These are `Char.isWhitespace`, `trim`, `isBlank`, `contains` with and without `ignoreCase`, the phone pattern `^\d{10}$`, and the order `ORDER BY name` sorts in. That order is SQLite's BINARY collation, which on UTF-8 text is lexicographic order by code point.
- `contact_store.dfy` (module `ContactStore`): the `Contact` row and the specification functions `UpdateRow`, `DeleteRow` and `SortByName`, with lemmas about them. The class `ContactTable` holds the rows in a `seq<Contact>` plus the next auto-generated key. Its `Insert`, `Update` and `Delete` methods change that state, and its `GetAllContacts` function is the ordered query.
- `contact_search.dfy` (module `ContactSearch`): the list filter and its properties, with a two-contact example.
- `navigation.dfy` (module `Navigation`): `isRouteActive` and the three bottom-bar tabs.
- `contacts_screen.dfy` (module `ContactsScreen`): the submit validator `Validate` and the class `ContactsContent`. The class's fields are the screen's remembered variables and its methods are the click handlers.
- `wrappers.dfy` (modules `Wrappers`, `Seqs`): `Option` stands for Kotlin's nullable references, and `IsSubsequence` is order-preserving sub-lists.

The view-model only forwards each add, update or delete to the DAO in a coroutine, so the screen calls the table directly. The list the screen shows is the table's ordered query filtered by the search text.

Two consequences of the code are proved rather than assumed:

- In the two-contact example ("Nguyen Van A", "0123456789") and ("Le Thi B", "0987654321"), the query "a" shows only the first contact, because "Le Thi B" has no letter a in either case. The query "l" shows only the second, through its capital L.
- Suppose a contact is deleted while it is being edited. A later submit then sends an update for a key that is gone. The table does not change, the buffers are cleared, and the typed values are lost (`UpdateAfterDeleteIsLost`, with `Submit`'s contract).

## Model

| member | source | states |
|---|---|---|
| `ContactStore.ContactTable.constructor` | app/src/main/java/com/example/phoneapp/data/ContactDao.kt:10-11 | An empty table whose first generated key is 1; the table invariant (unique keys, all below the next key) holds. |
| `ContactStore.ContactTable.Insert` | app/src/main/java/com/example/phoneapp/data/ContactDao.kt:12-13 | Exactly one row is appended, with the given name and phone and a key not used by any existing row; every existing row is unchanged; keys stay unique. |
| `ContactStore.ContactTable.Update` | app/src/main/java/com/example/phoneapp/data/ContactDao.kt:15-16 | The new table is `UpdateRow` of the old one by the contact's key; the key counter and the table invariant are kept. |
| `ContactStore.ContactTable.Delete` | app/src/main/java/com/example/phoneapp/data/ContactDao.kt:18-19 | The new table is `DeleteRow` of the old one by the contact's key; the key counter and the table invariant are kept. |
| `ContactStore.ContactTable.GetAllContacts` | app/src/main/java/com/example/phoneapp/data/ContactDao.kt:21-22 | The query result is a permutation of the stored rows (same multiset) with names non-decreasing. |
| `ContactStore.UpdateRow` | app/src/main/java/com/example/phoneapp/data/ContactDao.kt:15-16 | Same number of rows; a row whose key differs is kept at its position; a row with the contact's key becomes the contact. |
| `ContactStore.UpdateAbsent` | app/src/main/java/com/example/phoneapp/data/ContactDao.kt:15-16 | Updating a key that no row has leaves the table equal to what it was. |
| `ContactStore.UpdatePresent` | app/src/main/java/com/example/phoneapp/data/ContactDao.kt:15-16 | With unique keys and the key present, the update replaces exactly one row, at the index of the old row with that key. |
| `ContactStore.UpdateKeepsIds` | app/src/main/java/com/example/phoneapp/data/ContactDao.kt:15-16 | An update leaves the set of keys unchanged and keeps keys unique. |
| `ContactStore.DeleteRow` | app/src/main/java/com/example/phoneapp/data/ContactDao.kt:18-19 | The result is an order-preserving subsequence of the table; a row is in it exactly when it was stored and its key differs from the deleted key. |
| `ContactStore.DeleteAbsent` | app/src/main/java/com/example/phoneapp/data/ContactDao.kt:18-19 | Deleting a key that no row has leaves the table equal to what it was. |
| `ContactStore.DeletePresent` | app/src/main/java/com/example/phoneapp/data/ContactDao.kt:18-19 | With unique keys, deleting a stored row removes exactly that row: the multiset loses one copy of it and the count drops by one. |
| `ContactStore.DeleteKeepsUnique` | app/src/main/java/com/example/phoneapp/data/ContactDao.kt:18-19 | After a delete, keys are still unique and the key set is the old one minus the deleted key. |
| `ContactStore.SortedByName` | app/src/main/java/com/example/phoneapp/data/ContactDao.kt:21 | The `ASC` order of the query: names non-decreasing; `GetAllContacts` and `SortByName` promise it of the query result. |
| `ContactStore.InsertByName` | app/src/main/java/com/example/phoneapp/data/ContactDao.kt:21 | Placing a row into a name-sorted list keeps it sorted and adds exactly that row to its multiset. |
| `ContactStore.SortByName` | app/src/main/java/com/example/phoneapp/data/ContactDao.kt:21 | The `ORDER BY name ASC` result: sorted by name and a permutation of the rows. |
| `ContactStore.UniqueRowsOnce` | app/src/main/java/com/example/phoneapp/data/ContactDao.kt:21-22 | With unique keys, every stored row occurs exactly once, so the query lists every row exactly once. |
| `ContactStore.InsertedRowListed` | app/src/main/java/com/example/phoneapp/data/ContactDao.kt:12-22 | After inserting a row with a fresh key, the next query lists that row exactly once. |
| `ContactStore.UpdatedRowListed` | app/src/main/java/com/example/phoneapp/data/ContactDao.kt:15-22 | After updating a stored key, the query lists the new row, has as many rows as before, and holds no other row with that key. |
| `ContactStore.UpdateAfterDeleteIsLost` | app/src/main/java/com/example/phoneapp/data/ContactDao.kt:15-19 | An update to a key that was just deleted changes nothing. |
| `Text.IsWhitespace` | app/src/main/java/com/example/phoneapp/MainActivity.kt:221-223 | Kotlin's `Char.isWhitespace()` on the JVM, which `trim()` strips and `isBlank()` tests; `TrimSlice` and `TrimBlank` state what trimming and blankness mean in its terms. |
| `Text.Trim` | app/src/main/java/com/example/phoneapp/MainActivity.kt:221-222 | `trim()` is never longer than its input and neither starts nor ends with whitespace; `TrimSlice`, `TrimBlank` and `TrimIdempotent` specify it fully. |
| `Text.IsBlank` | app/src/main/java/com/example/phoneapp/MainActivity.kt:223 | `isNotBlank()` is the negation of this predicate; `TrimBlank` ties it to the trimmed text being empty. |
| `Text.IsTenDigits` | app/src/main/java/com/example/phoneapp/MainActivity.kt:224 | `matches(Regex("^\\d{10}$"))`: exactly ten ASCII digits; `TenDigitsTrimmed` shows such a number is unaffected by trimming and not blank. |
| `Text.Contains` | app/src/main/java/com/example/phoneapp/MainActivity.kt:169 | The literal `contains`; `ContainsOccurrence` ties it in both directions to an occurrence at some index. |
| `Text.CharEqualsIgnoreCase` | app/src/main/java/com/example/phoneapp/MainActivity.kt:168 | The per-character test of `contains(..., ignoreCase = true)`; `FoldCaseDecides` shows it holds exactly when both characters have the same canonical case. |
| `Text.FoldCaseDecides` | app/src/main/java/com/example/phoneapp/MainActivity.kt:168 | Two characters are equal ignoring case exactly when their canonical (upper-, then lower-cased) forms are equal. |
| `Text.ContainsIgnoreCase` | app/src/main/java/com/example/phoneapp/MainActivity.kt:168 | `contains(..., ignoreCase = true)`; `ContainsIgnoreCaseFolded` ties it in both directions to a literal search over the case-folded strings. |
| `Text.TrimStart` | app/src/main/java/com/example/phoneapp/MainActivity.kt:221-222 | The result is a suffix of the input; everything removed is whitespace; the result does not start with whitespace. |
| `Text.TrimEnd` | app/src/main/java/com/example/phoneapp/MainActivity.kt:221-222 | The result is a prefix of the input; everything removed is whitespace; the result does not end with whitespace. |
| `Text.TrimSlice` | app/src/main/java/com/example/phoneapp/MainActivity.kt:221-222 | `trim()` returns a slice `s[lo..hi]`; all characters outside the slice are whitespace; a non-empty slice starts and ends with non-whitespace. |
| `Text.TrimIdempotent` | app/src/main/java/com/example/phoneapp/MainActivity.kt:221-222 | Trimming a trimmed string changes nothing. |
| `Text.TrimBlank` | app/src/main/java/com/example/phoneapp/MainActivity.kt:221-223 | The trimmed text is blank exactly when the original is, and exactly when it is empty. |
| `Text.ContainsOccurrence` | app/src/main/java/com/example/phoneapp/MainActivity.kt:169 | The literal `contains` holds exactly when the query occurs at some index of the text. |
| `Text.ContainsIgnoreCaseFolded` | app/src/main/java/com/example/phoneapp/MainActivity.kt:168 | `contains(query, ignoreCase = true)` holds exactly when the case-folded query occurs in the case-folded text. |
| `Text.TenDigitsTrimmed` | app/src/main/java/com/example/phoneapp/MainActivity.kt:221-224 | A number that matches `^\d{10}$` is not blank and is unchanged by trimming. |
| `Text.LessOrEqual` | app/src/main/java/com/example/phoneapp/data/ContactDao.kt:21 | The BINARY collation that `ORDER BY name` sorts by; `LessOrEqualReflexive`, `LessOrEqualTotal`, `LessOrEqualTransitive` and `LessOrEqualAntisymmetric` show it is a total order. |
| `Text.LessOrEqualTotal` | app/src/main/java/com/example/phoneapp/data/ContactDao.kt:21 | Any two names are ordered one way or the other by the collation. |
| `Text.LessOrEqualTransitive` | app/src/main/java/com/example/phoneapp/data/ContactDao.kt:21 | The collation order is transitive. |
| `Text.LessOrEqualAntisymmetric` | app/src/main/java/com/example/phoneapp/data/ContactDao.kt:21 | Names ordered both ways are equal, so the collation is a total order. |
| `Text.LessOrEqualReflexive` | app/src/main/java/com/example/phoneapp/data/ContactDao.kt:21 | Every name is ordered with itself. |
| `ContactSearch.Matches` | app/src/main/java/com/example/phoneapp/MainActivity.kt:168-169 | The filter's test on one contact: its name contains the query ignoring case, or its number contains it literally; `Filter` and `FilterCounts` state what the list keeps by it. |
| `ContactSearch.Filter` | app/src/main/java/com/example/phoneapp/MainActivity.kt:167-170 | A contact is in the filtered list exactly when it is in the full list and its name contains the query ignoring case or its number contains it literally. |
| `ContactSearch.FilterIsSubsequence` | app/src/main/java/com/example/phoneapp/MainActivity.kt:167-170 | The filtered list is an order-preserving subsequence of the full list. |
| `ContactSearch.FilterCounts` | app/src/main/java/com/example/phoneapp/MainActivity.kt:167-170 | A matching contact is kept as many times as it occurs; a non-matching one is kept zero times. |
| `ContactSearch.FilterEmptyQuery` | app/src/main/java/com/example/phoneapp/MainActivity.kt:167-170 | An empty search text shows the full list, unchanged and in order. |
| `ContactSearch.FilterIdempotent` | app/src/main/java/com/example/phoneapp/MainActivity.kt:167-170 | Filtering the filtered list again with the same text changes nothing. |
| `ContactSearch.FilterKeepsOrder` | app/src/main/java/com/example/phoneapp/MainActivity.kt:167-170 | Filtering a name-sorted list gives a name-sorted list. |
| `ContactSearch.SearchScenario` | app/src/main/java/com/example/phoneapp/MainActivity.kt:167-170 | With two contacts: "0123" shows only the first (a phone hit), "a" shows only "Nguyen Van A", and "l" shows only "Le Thi B" (a case-insensitive hit). |
| `Navigation.IsRouteActive` | app/src/main/java/com/example/phoneapp/MainActivity.kt:121-123 | False for a missing destination; otherwise true exactly when the destination has a route equal to the given one. |
| `Navigation.ActiveRouteUnique` | app/src/main/java/com/example/phoneapp/MainActivity.kt:121-123 | One destination makes at most one route active. |
| `Navigation.SelectedTab` | app/src/main/java/com/example/phoneapp/MainActivity.kt:83-87 | At the route of one of the three bottom-bar tabs, exactly that tab is shown selected. |
| `ContactsScreen.Validate` | app/src/main/java/com/example/phoneapp/MainActivity.kt:221-224 | Submit is rejected as blank exactly when name or phone is blank. The number is rejected exactly when neither is blank but the trimmed phone is not ten ASCII digits. Otherwise the trimmed values are accepted: a non-empty, already-trimmed name and a ten-digit number. |
| `ContactsScreen.ValidateIdempotent` | app/src/main/java/com/example/phoneapp/MainActivity.kt:221-224 | Values that were accepted once are accepted again, unchanged. |
| `ContactsScreen.ContactsContent.constructor` | app/src/main/java/com/example/phoneapp/MainActivity.kt:145-151 | All three buffers start empty; no contact is selected, being edited or pending deletion. |
| `ContactsScreen.ContactsContent.FilteredContacts` | app/src/main/java/com/example/phoneapp/MainActivity.kt:143-170 | The shown list is sorted by name and holds exactly the stored contacts that match the search text. It is an order-preserving subsequence of the query result, so rows with equal names keep the query's order. Each matching row occurs as often as it is stored and every other row not at all. |
| `ContactsScreen.ContactsContent.FilteredOnce` | app/src/main/java/com/example/phoneapp/MainActivity.kt:143-170 | With the store's keys unique, every stored contact that matches the search text is shown exactly once. |
| `ContactsScreen.ContactsContent.OnSearchQueryChange` | app/src/main/java/com/example/phoneapp/MainActivity.kt:160 | The search buffer becomes the typed text; nothing else changes. |
| `ContactsScreen.ContactsContent.OnNameChange` | app/src/main/java/com/example/phoneapp/MainActivity.kt:203 | The name buffer becomes the typed text; nothing else changes. |
| `ContactsScreen.ContactsContent.OnPhoneNumberChange` | app/src/main/java/com/example/phoneapp/MainActivity.kt:212 | The phone buffer becomes the typed text; nothing else changes. |
| `ContactsScreen.ContactsContent.Select` | app/src/main/java/com/example/phoneapp/MainActivity.kt:178 | The tapped contact becomes the selected one; nothing else changes. |
| `ContactsScreen.ContactsContent.BeginEdit` | app/src/main/java/com/example/phoneapp/MainActivity.kt:186-190 | The contact becomes the edited one and the buffers hold its name and phone; nothing else changes and the store is not called. |
| `ContactsScreen.ContactsContent.BeginDelete` | app/src/main/java/com/example/phoneapp/MainActivity.kt:194 | The contact becomes the one pending deletion; nothing else changes. |
| `ContactsScreen.ContactsContent.Submit` | app/src/main/java/com/example/phoneapp/MainActivity.kt:220-245 | Returns the `Validate` verdict. On a blank or bad-number verdict, neither the screen nor the store changes. On acceptance with no edited contact, exactly one row with the trimmed values and a fresh key is appended. On acceptance with an edited contact, the row with its key takes the trimmed values, with no insert, and the edit ends. On acceptance both buffers are cleared. The search text and the selected and pending-deletion contacts never change. |
| `ContactsScreen.ContactsContent.CloseDetail` | app/src/main/java/com/example/phoneapp/MainActivity.kt:257-268 | Closing or dismissing the detail dialog clears the selection; nothing else changes. |
| `ContactsScreen.ContactsContent.Call` | app/src/main/java/com/example/phoneapp/MainActivity.kt:259-262 | Hands the selected contact's number to the dialer and clears the selection. |
| `ContactsScreen.ContactsContent.ConfirmDelete` | app/src/main/java/com/example/phoneapp/MainActivity.kt:286-290 | The store deletes by the key of the contact pending deletion, and nothing else, and the pending deletion is cleared. |
| `ContactsScreen.ContactsContent.CancelDelete` | app/src/main/java/com/example/phoneapp/MainActivity.kt:284-296 | Cancelling or dismissing clears the pending deletion without calling the store. |

## Left out

- The Compose layout, the top bar, the placeholder tabs, theming, and the navigation host with its bottom-bar click handling are rendering and framework calls. Only `isRouteActive` and the tab routes are modelled; the tabs' labels and icons, which only the layout and the top bar read, are left out.
- `makeCall` consists of the call intent, the runtime permission check and request, and a toast. These are platform calls. `Call` returns the number it would be handed.
- The toast shown for a malformed number is the `BadPhone` verdict returned by `Submit`.
- The view-model's coroutines and `StateFlow` are left out. Each add, update or delete is a synchronous call on the table, and the shown list is always the current query result. The initial empty emission and the ordering of concurrent writes are not modelled.
- `ContactStore.ContactTable.Insert`: the `Contact` entity class is not part of this model. The key is assumed to be auto-generated and never reused: the inserted row takes the next counter value and the caller's key is ignored. An explicit non-zero key and the conflict it could raise are not modelled.
- The database's durability, the application's lazy database creation, and Room's generated code are left out.
- `Text.IsWhitespace` lists the whitespace of Kotlin's `Char.isWhitespace` on the JVM for current Unicode versions. Version-specific changes are not modelled; for example, U+180E was a space separator before Unicode 6.3.
- `Text.UpperCase` / `Text.LowerCase` cover only ASCII letters. The rest of Unicode's case mapping that `ignoreCase` uses is not modelled. `ContainsIgnoreCaseFolded` holds for any case mapping.
- `Text.IsTenDigits` reads `\d` as ASCII 0-9, the JVM default. On Android's ICU-based regular expressions, `\d` also matches other Unicode decimal digits, and such numbers would pass the check there.
- Strings are sequences of code points, not UTF-16 units, so unpaired surrogates are not represented.
- `ContactsScreen.ContactsContent.Call` and `ContactsScreen.ContactsContent.ConfirmDelete` require a selected or pending contact. The source reads them with `!!` inside dialogs that are only shown while they are set.
- The order among rows with equal names is not fixed by `ORDER BY name`. `GetAllContacts` promises only sortedness and permutation, and the model's insertion sort is one admissible order.
