# User service book lifecycle, modelled in Dafny

The user service keeps books in two stores.

- **Catalog**: a relational `Book` table. It holds one row per ISBN, and each row records the
  `user_id` of the user who published it.
- **Users**: a document collection keyed by ObjectId. Each user document embeds three ordered
  book lists: `PublishedBook`, `Wishlist` and `Cart`.

Six endpoints of `UserController` move books between the two stores:

- `CreateUser` checks the phone is free, then inserts the document.
- `PublishBook` validates the body, finds the user and checks the ISBN is not in the catalog; an
  ISBN that is there ends in 500. Otherwise it appends a snapshot to `PublishedBook`, then inserts
  the catalog row.
- `AddToWishlist` and `AddToCart` find the user, read the catalog row, reject an ISBN the list
  already holds, and append a copy of the row.
- `UpdateBook` runs the catalog update, then sets the fields of the first `PublishedBook`
  element that carries the ISBN.
- `DeleteBook` deletes the catalog row by ISBN, then pulls every matching `PublishedBook` element.

The model has six files, one module each:

- `models.dfy` (`Models`): `Book`, `User` with its nullable lists, the defaults of `new User()`,
  the `[Required]` rule and ObjectId parsing.
- `catalog.dfy` (`CatalogStore`): the table and the calls made against it.
- `documents.dfy` (`DocumentStore`): the lookup by id and the list operations the controller uses
  (`FirstOrDefault`, the positional `$` update, `PullFilter`, ISBN uniqueness).
- `protocols.dfy` (`Protocols`): one function per endpoint. Each maps the stores before a request
  to the response status and the stores after it. The file also defines the store invariants.
- `properties.dfy` (`Properties`): lemmas stating what each protocol promises.
- `controller.dfy` (`Controller`): the class `UserController`. It owns both stores and has one
  method per endpoint. Each method runs the endpoint's calls in order, with the same early
  returns, and is proved equal to its protocol function. Each also keeps the document invariants.
  CreateUser keeps wishlists and carts unique only when the body's are. PublishBook and DeleteBook
  keep the stores coherent on a 200, and the two add endpoints keep it always. CreateUser keeps it
  when the body publishes nothing.

How the environment appears in the model:

- **Faults.** Each request names the set of store calls that throw during it (`failing`). A
  throwing call gives a 500, and every earlier write stays.
- **Inputs instead of effects.** Password hashing is a function parameter (`hash`). The ObjectId
  the driver generates is a parameter (`generatedId`), and so is the id the table assigns to a new
  row (`assignedId`).
- **`UpdateBookByISBN`.** The stored procedure's body is not part of this model, so its effect is
  a parameter: the table it leaves behind (`updated`).
- **Coherence.** `Protocols.Coherent` states that every published snapshot has a catalog row owned
  by its user, and that every row is listed as published by its owner.

Where the code and the design description disagree, the model follows the code:

- `PublishBook` writes the user document before it inserts the catalog row, so a failing insert
  leaves a snapshot with no row. The description has the row first, so a failure would leave a
  row with no snapshot.
- Republishing an ISBN that is already in the catalog is a 500, not a 409. The conflict branch
  first logs with `Console.WriteLine("Conflict: ISBN {ISBN} already exists.", bookDto.ISBN)`
  (UserApi/Controllers/UserController.cs:229). That overload treats the text as a composite format
  string, and `{ISBN}` is not a valid format item, so the call throws `FormatException` before
  `return Conflict(...)` at line 230. The catch at lines 274-279 answers 500, and neither store has
  been written by then.
- A duplicate-key failure of the insert is a 500, not a 409.
- `AddToWishlist` and `AddToCart` answer 500, not 404, when the catalog has no row. `book.Title`
  is read before the null check (UserApi/Controllers/UserController.cs:335, 426).
- `UpdateBook` does not consult the catalog update's row count. It answers from the document
  update's `ModifiedCount`, so an update that writes identical values answers 404.
- `DeleteBook` deletes the row whatever its owner. Deleting another user's book removes the row,
  answers 404, and leaves the owner's snapshot without a row.
- A malformed user id (not 24 hexadecimal digits) makes the driver throw inside the `try` block,
  so it is a 500, not a 404.
- A book published without an ISBN passes the ISBN check, since a NULL ISBN matches no row, so
  nothing prevents publishing it again. What the insert then does depends on the table's schema,
  which is not part of this model. The model assumes the insert stores a row that no later
  `ISBN = @isbn` query finds. If the column is `NOT NULL` instead, the insert throws and the request
  answers 500, leaving the snapshot in place. The read paths call `GetString("ISBN")` without a
  null check, which points that way.

## Model

| member | source | states |
|---|---|---|
| Models.NewUser | UserApi/Models/User.cs:34-44 | A new user has no id, phone, email or password; the profile image path is empty; all three lists are present and empty |
| Models.MeetsRequired | UserApi/Models/User.cs:21-32 | A body that passes `[Required]` has Email, PasswordHash and Phone present and non-empty |
| Models.ParseObjectId | UserApi/Models/User.cs:10-12 | A user id names a document key exactly when it is 24 hexadecimal digits; the key is that text in lower case |
| Models.ParseCanonical | UserApi/Models/User.cs:10-12 | A stored key, read back and used as a user id, denotes itself |
| Models.ParseIgnoresCase | UserApi/Models/User.cs:10-12 | Two spellings of an id that differ only in letter case denote the same document |
| CatalogStore.IsbnPresent | UserApi/Controllers/UserController.cs:200-224 | The ISBN check: a NULL ISBN is never present; otherwise presence is membership of the table's keys, against which the select, the insert and the delete are stated |
| CatalogStore.FindByIsbn | UserApi/Controllers/UserController.cs:303-324 | The select finds a row exactly when the ISBN is in the table, and returns that row |
| CatalogStore.InsertBook | UserApi/Controllers/UserController.cs:256-270 | The insert fails exactly when the ISBN is already present; otherwise it adds one row under that ISBN and every other ISBN reads as before |
| CatalogStore.DeleteByIsbn | UserApi/Controllers/UserController.cs:563-574 | The delete affects one row exactly when the ISBN is present, else none; afterwards the ISBN is absent and every other row is kept |
| CatalogStore.DeleteKeepsOtherRows | UserApi/Controllers/UserController.cs:567-570 | A delete keeps every row under another ISBN as it was |
| CatalogStore.DeleteTwice | UserApi/Controllers/UserController.cs:567-573 | A second delete of the same ISBN affects no row and changes nothing |
| CatalogStore.InsertThenDelete | UserApi/Controllers/UserController.cs:567-570 | Deleting the ISBN of a freshly inserted row restores the table, and one row is affected |
| DocumentStore.HasIsbnAppend | UserApi/Controllers/UserController.cs:248-249 | After an append, the list carries an ISBN exactly when the old list or the new element carries it |
| DocumentStore.FirstMatch | UserApi/Controllers/UserController.cs:350 | The scan finds an element exactly when one carries the ISBN; it returns the first such element |
| DocumentStore.WithFields | UserApi/Controllers/UserController.cs:523-533 | The positional set copies all fields from the body except BookId and ISBN, which stay |
| DocumentStore.SetFirstMatch | UserApi/Controllers/UserController.cs:520-535 | The positional update changes only the first element carrying the ISBN; length and every element's ISBN are kept; with no match the list is unchanged |
| DocumentStore.SetFirstMatchInPlace | UserApi/Controllers/UserController.cs:520-535 | When some element carries the ISBN, the positional update is the in-place write of the first such element |
| DocumentStore.PullIsbn | UserApi/Controllers/UserController.cs:583-586 | The pull keeps exactly the elements that do not carry the ISBN; it shortens the list when one did, and changes nothing when none did |
| DocumentStore.PullIsbnCounts | UserApi/Controllers/UserController.cs:583-586 | Every element without the ISBN occurs in the pulled list as often as in the original, duplicates included; elements with the ISBN do not occur |
| DocumentStore.PullIsbnAppend | UserApi/Controllers/UserController.cs:583-586 | The pull keeps the order of the elements it keeps: pulling from a list extended by one element extends the pulled list by that element exactly when it lacks the ISBN |
| DocumentStore.PullHasIsbn | UserApi/Controllers/UserController.cs:583-586 | After the pull, the list carries every ISBN it carried before except the pulled one |
| DocumentStore.AppendKeepsUnique | UserApi/Controllers/UserController.cs:350-357 | Appending an element whose ISBN the list lacks keeps the list's ISBNs unique |
| DocumentStore.FindById | UserApi/Controllers/UserController.cs:193 | The lookup by user id throws exactly when the id is not an ObjectId; otherwise it finds the document under that key when there is one |
| DocumentStore.PhoneTaken | UserApi/Controllers/UserController.cs:39 | The phone lookup finds a document whenever some user holds that phone; an empty collection finds none |
| DocumentStore.WithList | UserApi/Controllers/UserController.cs:360-361 | Setting one list makes it the new items and leaves the other list and every other property unchanged |
| Protocols.DocumentKey | UserApi/Controllers/UserController.cs:48 | A null or empty UserId takes the generated key; any other UserId is a key exactly when it is 24 hexadecimal digits, and the key is that text in lower case; otherwise the insert throws |
| Protocols.StoredUser | UserApi/Controllers/UserController.cs:42-46 | The stored document is the body with the password hashed, the key set and every null list replaced by an empty one |
| Protocols.PublishSnapshot | UserApi/Controllers/UserController.cs:234-245 | The snapshot is the body without BookId, Trending and Bestseller; its Publisher defaults to first name, space, last name |
| Protocols.RowOf | UserApi/Controllers/UserController.cs:256-268 | The inserted row carries the snapshot's title and author and the requesting user id as owner |
| Protocols.CreateUserSpec | UserApi/Controllers/UserController.cs:35-51 | CreateUser never touches the catalog, never answers 404 or 409, and leaves every existing document as it was |
| Protocols.PublishBookSpec | UserApi/Controllers/UserController.cs:182-280 | Only a 200 changes the catalog, and a 200 needs a valid body and a found user; PublishBook never answers 409 |
| Protocols.AddToListSpec | UserApi/Controllers/UserController.cs:283-371 | Adding to a list never touches the catalog and never answers 400; a 200 needs a found user and a catalog row for the ISBN |
| Protocols.UpdateBookSpec | UserApi/Controllers/UserController.cs:491-550 | UpdateBook never answers 409; the catalog afterwards is the old one or the one the update leaves; only a 200 changes a document |
| Protocols.DeleteBookSpec | UserApi/Controllers/UserController.cs:553-603 | DeleteBook never answers 409 and never touches rows without an ISBN; only a 200 changes a document |
| Protocols.CopyOfRow | UserApi/Controllers/UserController.cs:312-324 | The copy carries the requested ISBN and leaves Trending and Bestseller unset; every column of the row comes back from it unchanged: building a row from the copy, with the row's owner and id, gives the row back |
| Properties.ListWriteKeepsInvariants | UserApi/Controllers/UserController.cs:252-253 | Rewriting one document's lists keeps phones unique and keys in agreement, and keeps wishlists and carts unique when only PublishedBook is rewritten |
| Properties.CreateUserRejects | UserApi/Controllers/UserController.cs:37-41 | A null body, a missing or blank Email, PasswordHash or Phone, or a phone another user holds gives 400, and nothing is inserted |
| Properties.CreateUserInsertsOne | UserApi/Controllers/UserController.cs:37-50 | Success holds exactly when the body is valid, the phone is free, hashing works, the UserId is null, empty or an ObjectId, and the key is fresh; an unset UserId takes the generated key. Success then inserts exactly one new document with all three lists present; any other outcome changes nothing |
| Properties.CreateUserDefaultBody | UserApi/Models/User.cs:34-44 | A body that sets only Email, PasswordHash and Phone takes the `new User()` defaults; if its phone is free and nothing fails, it is stored under the generated key with the hashed password, an empty image path and three empty lists |
| Properties.CreateUserKeepsInvariants | UserApi/Controllers/UserController.cs:39-48 | Phones stay unique and every document carries its own key |
| Properties.CreateUserKeepsListsUnique | UserApi/Controllers/UserController.cs:44-48 | Wishlists and carts stay unique when the body's are |
| Properties.CreateUserKeepsCoherent | UserApi/Controllers/UserController.cs:44-48 | The stores stay coherent when the body publishes nothing |
| Properties.CreateUserWithPublishedBreaksCoherent | UserApi/Controllers/UserController.cs:44-48 | A published book in the body is stored as sent, with no catalog row, so coherence breaks |
| Properties.PublishRejects | UserApi/Controllers/UserController.cs:187-197 | An empty title or author gives 400 and an unknown user gives 404; neither store changes |
| Properties.PublishCatalogedFails | UserApi/Controllers/UserController.cs:200-231 | Once the user is found and the check runs, an ISBN already in the catalog gives 500 and changes nothing, because the log call before the 409 throws; the published list is not consulted; any other ISBN ends in 200 or 500 |
| Properties.PublishWritesSnapshotThenRow | UserApi/Controllers/UserController.cs:233-272 | Past the checks, the published list becomes old plus snapshot. A failing insert then gives 500 with the snapshot kept and no row; otherwise the result is 200 and the row is inserted |
| Properties.PublishOutcomes | UserApi/Controllers/UserController.cs:184-279 | A 400 or 404 changes nothing; a 500 never leaves a new row; a 200 adds exactly one row |
| Properties.SnapshotRowRoundTrip | UserApi/Controllers/UserController.cs:234-270 | Copying the row inserted for a snapshot gives back the snapshot, with the table's BookId |
| Properties.PublishThenFind | UserApi/Controllers/UserController.cs:249-272 | After a 200, the row for the ISBN and the last published snapshot agree on title, author and ISBN, and the row is owned by the requester |
| Properties.PublishTwiceFails | UserApi/Controllers/UserController.cs:200-231 | Publishing the same ISBN again after a success gives 500 and changes nothing; the catalog keeps the one row for the ISBN, owned by the first requester |
| Properties.PublishWithoutIsbnRepeats | UserApi/Controllers/UserController.cs:209-270 | Without an ISBN, two successful publishes add two rows and two snapshots, given that the insert stores NULL-ISBN rows (an assumption about the schema) |
| Properties.PublishKeepsInvariants | UserApi/Controllers/UserController.cs:248-253 | Phones, keys and wishlist and cart uniqueness are kept |
| Properties.PublishKeepsCoherent | UserApi/Controllers/UserController.cs:248-272 | A 200 keeps the stores coherent |
| Properties.PublishInsertFailureOrphansSnapshot | UserApi/Controllers/UserController.cs:252-279 | When the insert fails after the snapshot was written, the result is 500 and the stores are no longer coherent |
| Properties.AddAppendsCopy | UserApi/Controllers/UserController.cs:343-363 | Any outcome but 200 leaves both stores unchanged. A 200 changes only the named list of that user, which becomes old plus the copy of the row; the other list and every other property of the user stay as they were |
| Properties.AddMissingRowFails | UserApi/Controllers/UserController.cs:335-341 | With no catalog row, the result is 500, not 404, and nothing changes |
| Properties.AddConflictIffListed | UserApi/Controllers/UserController.cs:349-354 | With the row present, 409 holds exactly when the named list already carries the ISBN |
| Properties.AddKeepsInvariants | UserApi/Controllers/UserController.cs:350-361 | ISBNs stay unique within every wishlist and cart; phones and keys are kept |
| Properties.AddTwiceConflicts | UserApi/Controllers/UserController.cs:441-452 | Adding the same ISBN twice: the second request gives 409 and the list holds exactly one element with that ISBN, its last |
| Properties.AddKeepsCoherent | UserApi/Controllers/UserController.cs:357-361 | Coherence is kept, because the catalog and published lists do not change |
| Properties.UpdateRejects | UserApi/Controllers/UserController.cs:493-496 | A null body, or an empty isbn or userId, gives 400 with no writes |
| Properties.UpdateChangesCatalogFirst | UserApi/Controllers/UserController.cs:517 | Past validation the catalog becomes the result of the update and stays so whatever follows; a failing catalog update gives 500 and changes nothing |
| Properties.UpdateSetsFirstPublished | UserApi/Controllers/UserController.cs:520-544 | With the user found, 200 holds exactly when the first element carrying the ISBN changed; that element takes the body's fields and no other element, list or user changes; a 404 writes no document |
| Properties.UpdateByNonOwnerChangesCatalogOnly | UserApi/Controllers/UserController.cs:517-544 | A user who has not published the ISBN gets 404, yet the catalog has already changed |
| Properties.UpdateLeavesCopiesStale | UserApi/Controllers/UserController.cs:520-535 | Every wishlist and cart is unchanged, so copies go stale, and every published element keeps its ISBN |
| Properties.UpdateKeepsInvariants | UserApi/Controllers/UserController.cs:520-535 | Phones, keys and wishlist and cart uniqueness are kept |
| Properties.DeleteRejects | UserApi/Controllers/UserController.cs:555-574 | An empty isbn or userId gives 400; an ISBN with no row gives 404 and nothing is written |
| Properties.DeleteRemovesRowFirst | UserApi/Controllers/UserController.cs:563-575 | When the row exists, it is removed by ISBN alone, whoever owns it, and stays removed whatever the document update answers |
| Properties.DeletePullsPublished | UserApi/Controllers/UserController.cs:577-597 | With the row deleted and the user found, 200 holds exactly when the published list carried the ISBN; every matching element is then removed and nothing else changes |
| Properties.DeleteTwiceNotFound | UserApi/Controllers/UserController.cs:567-574 | A second delete of the same ISBN gives 404 and changes nothing |
| Properties.DeleteKeepsInvariants | UserApi/Controllers/UserController.cs:583-588 | Phones, keys and wishlist and cart uniqueness are kept |
| Properties.DeleteKeepsCoherent | UserApi/Controllers/UserController.cs:563-592 | A 200 keeps the stores coherent |
| Properties.DeleteOthersBookOrphansSnapshot | UserApi/Controllers/UserController.cs:567-597 | Deleting another user's book removes the row and gives 404; the owner's snapshot remains without a row, so coherence breaks |
| Controller.UserController.constructor | UserApi/Controllers/UserController.cs:26-32 | The controller starts with the two stores it is given |
| Controller.UserController.CreateUser | UserApi/Controllers/UserController.cs:34-51 | Runs the create protocol. It keeps phones unique and keys in agreement, and keeps wishlists and carts unique when the body's wishlist and cart have unique ISBNs, and keeps the stores coherent when the body publishes nothing |
| Controller.UserController.PublishBook | UserApi/Controllers/UserController.cs:181-280 | Runs the publish protocol, keeps the document invariants, and keeps coherence on success |
| Controller.UserController.AddToWishlist | UserApi/Controllers/UserController.cs:282-371 | Runs the add protocol on the wishlist and keeps the invariants and coherence |
| Controller.UserController.AddToCart | UserApi/Controllers/UserController.cs:373-462 | Runs the add protocol on the cart and keeps the invariants and coherence |
| Controller.UserController.AddToList | UserApi/Controllers/UserController.cs:285-361 | The shared body of both add endpoints: the protocol for the named list |
| Controller.UserController.UpdateBook | UserApi/Controllers/UserController.cs:490-550 | Runs the update protocol through the first match and an in-place element write, and keeps the document invariants |
| Controller.UserController.DeleteBook | UserApi/Controllers/UserController.cs:552-603 | Runs the delete protocol, keeps the document invariants, and keeps coherence on success |

## Left out

- `Login`, `GenerateJwtToken` and password hashing: JWT signing and hashing are foreign cryptographic
  calls. Hashing appears only as the parameter `hash`.
- `UploadProfileImage` and `GetProfileImage`: file-system reads and writes, and MIME type lookup.
- `GetCart`, `GetWishlist` and `Test`: reads that return a stored list or a constant.
- `Console.WriteLine` logging, and the response payloads and messages. Only the status class is modelled.
- The bodies of the stored procedures `IsISBNPresentINTable`, `InsertBook` and `UpdateBookByISBN`
  are not part of this model:
  - the first is membership of the ISBN;
  - the second is an insert that is unique per ISBN;
  - the third is an arbitrary resulting table.
- The table's collation: ISBN comparison in the model is exact, where a case-insensitive
  collation would match more rows.
- Concurrency: each request is one sequential run. The race between the ISBN check and the insert
  is not modelled, and neither is the race between two appends to a list.
- Connection plumbing (UserApi/Data/MySQLDBContext.cs, UserApi/Data/MongoDBContext.cs), the BookApi
  read path and service wiring, and the gateway configuration.
- The Trending and Bestseller columns: the catalog row holds only the columns the controller
  reads back. The select never reads those two columns, so a copy always has them unset.
- The size of the `int` columns and prices: they are unbounded integers, since the controller
  only copies them.
- The `[Required]` rule: whitespace is the ASCII whitespace characters plus U+0085 and U+00A0, not
  the full Unicode set `string.IsNullOrWhiteSpace` uses. The non-null rule for non-nullable
  reference properties, which the framework applies to request bodies, is not modelled.
- The NULL-ISBN insert: `InsertBook` is assumed to store a row with a NULL ISBN as an unkeyed row that
  no ISBN query finds. The schema is not part of this model, and a `NOT NULL` ISBN column would make
  that insert a 500 instead. PublishWithoutIsbnRepeats depends on this assumption.
- `ProfileImagePath` is never null in the model. An explicit `null` in a request
  body is not modelled.
