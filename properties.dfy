/** What the endpoint protocols of Protocols promise: rejections that change nothing, the
    writes each endpoint makes and in which order, the partial states a failing store call leaves,
    and the store invariants each endpoint keeps or breaks. */
module Properties {
  import opened Models
  import opened CatalogStore
  import opened DocumentStore
  import opened Protocols

  /** Rewriting one document's lists keeps phone uniqueness and key agreement, and keeps wishlists
      and carts unique when only PublishedBook is rewritten. */
  lemma ListWriteKeepsInvariants(users: map<ObjectIdText, User>, key: ObjectIdText, u: User)
    requires key in users && u.phone == users[key].phone && u.userId == users[key].userId
    ensures PhonesUnique(users) ==> PhonesUnique(users[key := u])
    ensures KeysAgree(users) ==> KeysAgree(users[key := u])
    ensures ListsUnique(users) && u.wishlist == users[key].wishlist && u.cart == users[key].cart ==>
      ListsUnique(users[key := u])
  {
  }

  // ---------------------------------------------------------------- CreateUser

  /** A null or invalid body, or a phone some user already holds, is a 400 that inserts nothing. */
  lemma CreateUserRejects(s: Stores, newUser: Option<User>, hash: Option<string> -> Option<string>,
                          generatedId: ObjectIdText, failing: set<StoreCall>)
    ensures newUser.None? || !MeetsRequired(newUser.value) ==>
      CreateUserSpec(s, newUser, hash, generatedId, failing) == Step(BadRequest, s)
    ensures newUser.Some? && MeetsRequired(newUser.value) && FindUserCall !in failing
            && PhoneTaken(s.users, newUser.value.phone) ==>
      CreateUserSpec(s, newUser, hash, generatedId, failing) == Step(BadRequest, s)
  {
  }

  /** CreateUser succeeds exactly when the body is valid, its phone is free, hashing succeeds, its
      UserId is unset (null or empty) or an ObjectId, and the document's key is fresh; an unset
      UserId takes the generated key; it then inserts one document, with all three lists present,
      and nothing else changes. Any other outcome changes nothing. */
  lemma CreateUserInsertsOne(s: Stores, newUser: Option<User>, hash: Option<string> -> Option<string>,
                             generatedId: ObjectIdText, failing: set<StoreCall>)
    ensures var r := CreateUserSpec(s, newUser, hash, generatedId, failing);
      r.after.catalog == s.catalog && (r.outcome != Ok ==> r.after == s)
    ensures var r := CreateUserSpec(s, newUser, hash, generatedId, failing);
      r.outcome == Ok <==>
        && newUser.Some? && MeetsRequired(newUser.value)
        && FindUserCall !in failing && InsertUserCall !in failing
        && !PhoneTaken(s.users, newUser.value.phone)
        && hash(newUser.value.passwordHash).Some?
        && (IsNullOrEmpty(newUser.value.userId) || ParseObjectId(newUser.value.userId.value).Some?)
        && DocumentKey(newUser.value, generatedId).value !in s.users
    ensures var r := CreateUserSpec(s, newUser, hash, generatedId, failing);
      r.outcome == Ok ==>
        var key := DocumentKey(newUser.value, generatedId).value;
        && r.after.users.Keys == s.users.Keys + {key}
        && (forall k :: k in s.users ==> r.after.users[k] == s.users[k])
        && HasAllLists(r.after.users[key])
        && r.after.users[key].phone == newUser.value.phone
        && r.after.users[key].userId == Some(key)
        && (IsNullOrEmpty(newUser.value.userId) ==> key == generatedId)
  {
  }

  /** A body that sets only the required properties deserialises onto `new User()`. If its phone
      is free and nothing fails, it is stored under the generated key with the hashed password,
      an empty profile image path and three present, empty lists. */
  lemma CreateUserDefaultBody(s: Stores, email: string, password: string, phone: string,
                              hash: Option<string> -> Option<string>, hashed: string,
                              generatedId: ObjectIdText, failing: set<StoreCall>)
    requires !IsNullOrWhiteSpace(Some(email)) && !IsNullOrWhiteSpace(Some(password)) && !IsNullOrWhiteSpace(Some(phone))
    requires FindUserCall !in failing && InsertUserCall !in failing
    requires !PhoneTaken(s.users, Some(phone)) && hash(Some(password)) == Some(hashed)
    requires generatedId !in s.users
    ensures var body := NewUser().(email := Some(email), passwordHash := Some(password), phone := Some(phone));
      CreateUserSpec(s, Some(body), hash, generatedId, failing)
      == Step(Ok, s.(users := s.users[generatedId :=
           User(Some(generatedId), None, None, Some(email), Some(hashed), Some(phone), "", Some([]), Some([]), Some([]))]))
  {
  }

  /** CreateUser keeps phone numbers unique and every document's UserId equal to its key. */
  lemma CreateUserKeepsInvariants(s: Stores, newUser: Option<User>, hash: Option<string> -> Option<string>,
                                  generatedId: ObjectIdText, failing: set<StoreCall>)
    requires PhonesUnique(s.users) && KeysAgree(s.users)
    ensures var r := CreateUserSpec(s, newUser, hash, generatedId, failing);
      PhonesUnique(r.after.users) && KeysAgree(r.after.users)
  {
    var r := CreateUserSpec(s, newUser, hash, generatedId, failing);
    if r.outcome == Ok {
      var key := DocumentKey(newUser.value, generatedId).value;
      var u := r.after.users[key];
      assert r.after.users == s.users[key := u];
      forall a, b | a in r.after.users && b in r.after.users && a != b
        ensures r.after.users[a].phone != r.after.users[b].phone
      {
        if a == key {
          assert b in s.users && s.users[b].phone != newUser.value.phone;
        } else if b == key {
          assert a in s.users && s.users[a].phone != newUser.value.phone;
        }
      }
    }
  }

  /** The body's wishlist and cart are stored as sent: CreateUser keeps wishlists and carts
      unique when the body's are. */
  lemma CreateUserKeepsListsUnique(s: Stores, newUser: Option<User>, hash: Option<string> -> Option<string>,
                                   generatedId: ObjectIdText, failing: set<StoreCall>)
    requires ListsUnique(s.users)
    requires newUser.Some? ==> UniqueIsbns(Items(newUser.value.wishlist)) && UniqueIsbns(Items(newUser.value.cart))
    ensures ListsUnique(CreateUserSpec(s, newUser, hash, generatedId, failing).after.users)
  {
  }

  /** The body's PublishedBook list is stored as sent, with no catalog row behind it: CreateUser
      keeps the stores coherent when the body publishes nothing. */
  lemma CreateUserKeepsCoherent(s: Stores, newUser: Option<User>, hash: Option<string> -> Option<string>,
                                generatedId: ObjectIdText, failing: set<StoreCall>)
    requires Coherent(s)
    requires newUser.Some? ==> Items(newUser.value.publishedBook) == []
    ensures Coherent(CreateUserSpec(s, newUser, hash, generatedId, failing).after)
  {
    var r := CreateUserSpec(s, newUser, hash, generatedId, failing);
    if r.outcome == Ok {
      var key := DocumentKey(newUser.value, generatedId).value;
      assert key !in s.users;
      assert Items(r.after.users[key].publishedBook) == [];
      forall isbn | isbn in r.after.catalog.rows
        ensures var owner := ParseObjectId(r.after.catalog.rows[isbn].owner);
          owner.Some? && owner.value in r.after.users
          && HasIsbn(Items(r.after.users[owner.value].publishedBook), isbn)
      {
        var owner := ParseObjectId(s.catalog.rows[isbn].owner);
        assert owner.value in s.users && owner.value != key;
      }
      assert RowsArePublished(r.after);
    }
  }

  /** The three lemmas above as one statement, for the controller's single call. */
  lemma CreateUserKeepsAll(s: Stores, newUser: Option<User>, hash: Option<string> -> Option<string>,
                           generatedId: ObjectIdText, failing: set<StoreCall>)
    ensures var t := CreateUserSpec(s, newUser, hash, generatedId, failing).after;
      PhonesUnique(s.users) && KeysAgree(s.users) && ListsUnique(s.users)
      && (newUser.Some? ==> UniqueIsbns(Items(newUser.value.wishlist)) && UniqueIsbns(Items(newUser.value.cart)))
      ==> PhonesUnique(t.users) && KeysAgree(t.users) && ListsUnique(t.users)
    ensures var t := CreateUserSpec(s, newUser, hash, generatedId, failing).after;
      Coherent(s) && (newUser.Some? ==> Items(newUser.value.publishedBook) == []) ==> Coherent(t)
  {
    if PhonesUnique(s.users) && KeysAgree(s.users) {
      CreateUserKeepsInvariants(s, newUser, hash, generatedId, failing);
      if ListsUnique(s.users) && (newUser.Some? ==> UniqueIsbns(Items(newUser.value.wishlist)) && UniqueIsbns(Items(newUser.value.cart))) {
        CreateUserKeepsListsUnique(s, newUser, hash, generatedId, failing);
      }
    }
    if Coherent(s) && (newUser.Some? ==> Items(newUser.value.publishedBook) == []) {
      CreateUserKeepsCoherent(s, newUser, hash, generatedId, failing);
    }
  }

  /** A published snapshot in the body has no catalog row: CreateUser then breaks coherence. */
  lemma CreateUserWithPublishedBreaksCoherent(s: Stores, newUser: Option<User>, hash: Option<string> -> Option<string>,
                                              generatedId: ObjectIdText, failing: set<StoreCall>, isbn: string)
    requires CreateUserSpec(s, newUser, hash, generatedId, failing).outcome == Ok
    requires HasIsbn(Items(newUser.value.publishedBook), isbn) && isbn !in s.catalog.rows
    ensures !Coherent(CreateUserSpec(s, newUser, hash, generatedId, failing).after)
  {
    var r := CreateUserSpec(s, newUser, hash, generatedId, failing);
    var key := DocumentKey(newUser.value, generatedId).value;
    assert HasIsbn(Items(r.after.users[key].publishedBook), isbn);
    RowMissingBreaksCoherent(r.after, key, isbn);
  }

  // ---------------------------------------------------------------- PublishBook

  /** An invalid body is a 400 and an unknown user a 404; neither store changes. */
  lemma PublishRejects(s: Stores, userId: string, bookDto: Option<Book>, assignedId: int,
                       failing: set<StoreCall>)
    ensures !ValidBookInput(bookDto) ==>
      PublishBookSpec(s, userId, bookDto, assignedId, failing) == Step(BadRequest, s)
    ensures ValidBookInput(bookDto) && FindUserCall !in failing && FindById(s.users, userId).Missing? ==>
      PublishBookSpec(s, userId, bookDto, assignedId, failing) == Step(NotFound, s)
  {
  }

  /** Once the user is found and the check runs, the catalog alone decides the fate of an ISBN
      it already holds: a 500 that changes nothing, since the conflict branch throws in its log
      call before answering 409. The user's own PublishedBook list is not consulted. Any other
      ISBN ends in 200 or 500. */
  lemma PublishCatalogedFails(s: Stores, userId: string, bookDto: Option<Book>, assignedId: int,
                              failing: set<StoreCall>)
    requires ValidBookInput(bookDto) && FindUserCall !in failing && IsbnCheckCall !in failing
    requires FindById(s.users, userId).Found?
    ensures var r := PublishBookSpec(s, userId, bookDto, assignedId, failing);
      IsbnPresent(s.catalog, bookDto.value.isbn) ==> r == Step(ServerError, s)
    ensures var r := PublishBookSpec(s, userId, bookDto, assignedId, failing);
      !IsbnPresent(s.catalog, bookDto.value.isbn) ==> r.outcome in {Ok, ServerError}
  {
  }

  /** Past the checks, PublishBook first appends the snapshot to the user's PublishedBook list,
      then inserts the row owned by the requesting user id. A failing insert leaves the snapshot
      written and no row: a 500. */
  lemma PublishWritesSnapshotThenRow(s: Stores, userId: string, bookDto: Option<Book>, assignedId: int,
                                     failing: set<StoreCall>)
    requires ValidBookInput(bookDto)
    requires FindUserCall !in failing && IsbnCheckCall !in failing && UpdateUserCall !in failing
    requires FindById(s.users, userId).Found? && !IsbnPresent(s.catalog, bookDto.value.isbn)
    ensures var r := PublishBookSpec(s, userId, bookDto, assignedId, failing);
      var key := FindById(s.users, userId).key;
      var user := FindById(s.users, userId).user;
      var snap := PublishSnapshot(bookDto.value, user);
      && r.after.users == s.users[key := user.(publishedBook := Some(Items(user.publishedBook) + [snap]))]
      && (InsertRowCall in failing ==> r.outcome == ServerError && r.after.catalog == s.catalog)
      && (InsertRowCall !in failing ==>
            r.outcome == Ok && InsertBook(s.catalog, snap.isbn, RowOf(snap, userId, assignedId)) == Some(r.after.catalog))
  {
  }

  /** What any PublishBook outcome leaves behind: a 400 or 404 changes nothing; a 500 never
      leaves a new row; a 200 adds exactly one row to the catalog. */
  lemma PublishOutcomes(s: Stores, userId: string, bookDto: Option<Book>, assignedId: int,
                        failing: set<StoreCall>)
    ensures var r := PublishBookSpec(s, userId, bookDto, assignedId, failing);
      r.outcome in {BadRequest, NotFound} ==> r.after == s
    ensures var r := PublishBookSpec(s, userId, bookDto, assignedId, failing);
      r.outcome == ServerError ==> r.after.catalog == s.catalog
    ensures var r := PublishBookSpec(s, userId, bookDto, assignedId, failing);
      r.outcome == Ok ==> RowCount(r.after.catalog) == RowCount(s.catalog) + 1
  {
  }

  /** The row a wishlist or cart would copy from a freshly published book is the publisher's
      snapshot, with the table's BookId. */
  lemma SnapshotRowRoundTrip(dto: Book, owner: User, userId: string, assignedId: int, isbn: string)
    requires ValidBookInput(Some(dto)) && dto.isbn == Some(isbn)
    ensures var snap := PublishSnapshot(dto, owner);
      CopyOfRow(isbn, RowOf(snap, userId, assignedId)) == snap.(bookId := assignedId)
  {
  }

  /** After a successful publish both stores hold the book: the catalog row and the last
      published snapshot agree on Title, Author and ISBN, and the row is owned by the requester. */
  lemma PublishThenFind(s: Stores, userId: string, bookDto: Option<Book>, assignedId: int,
                        failing: set<StoreCall>, isbn: string)
    requires PublishBookSpec(s, userId, bookDto, assignedId, failing).outcome == Ok
    requires bookDto.Some? && bookDto.value.isbn == Some(isbn)
    ensures var r := PublishBookSpec(s, userId, bookDto, assignedId, failing);
      var key := FindById(s.users, userId).key;
      && FindByIsbn(r.after.catalog, isbn).Some?
      && key in r.after.users
      && var row := FindByIsbn(r.after.catalog, isbn).value;
         var list := Items(r.after.users[key].publishedBook);
         && |list| > 0
         && list[|list| - 1].title == Some(row.title) == bookDto.value.title
         && list[|list| - 1].author == Some(row.author) == bookDto.value.author
         && list[|list| - 1].isbn == Some(isbn)
         && row.owner == userId
         && CopyOfRow(isbn, row) == list[|list| - 1].(bookId := assignedId)
  {
    var look := FindById(s.users, userId);
    SnapshotRowRoundTrip(bookDto.value, look.user, userId, assignedId, isbn);
  }

  /** Publishing the same ISBN again after a success is a 500 that changes nothing: the catalog
      keeps the one row for the ISBN, owned by the first request's user id. */
  lemma PublishTwiceFails(s: Stores, userId: string, bookDto: Option<Book>, id1: int, id2: int,
                          failing1: set<StoreCall>, failing2: set<StoreCall>)
    requires PublishBookSpec(s, userId, bookDto, id1, failing1).outcome == Ok
    requires bookDto.Some? && bookDto.value.isbn.Some?
    requires FindUserCall !in failing2 && IsbnCheckCall !in failing2
    ensures var s1 := PublishBookSpec(s, userId, bookDto, id1, failing1).after;
      PublishBookSpec(s1, userId, bookDto, id2, failing2) == Step(ServerError, s1)
    ensures var s1 := PublishBookSpec(s, userId, bookDto, id1, failing1).after;
      var isbn := bookDto.value.isbn.value;
      isbn in s1.catalog.rows && s1.catalog.rows[isbn].owner == userId
  {
    var s1 := PublishBookSpec(s, userId, bookDto, id1, failing1).after;
    var look := FindById(s.users, userId);
    assert look.key in s1.users;
    assert FindById(s1.users, userId).Found?;
    assert FindByIsbn(s1.catalog, bookDto.value.isbn.value).Some?;
  }

  /** Without an ISBN the ISBN check never fires, so nothing guards against republication: with
      the insert storing NULL-ISBN rows as unkeyed rows, two publishes of the same body both
      succeed and leave two snapshots and two rows. */
  lemma PublishWithoutIsbnRepeats(s: Stores, userId: string, bookDto: Option<Book>, id1: int, id2: int)
    requires PublishBookSpec(s, userId, bookDto, id1, {}).outcome == Ok
    requires bookDto.Some? && bookDto.value.isbn.None?
    ensures var s1 := PublishBookSpec(s, userId, bookDto, id1, {}).after;
      var s2 := PublishBookSpec(s1, userId, bookDto, id2, {});
      var key := FindById(s.users, userId).key;
      && s2.outcome == Ok
      && RowCount(s2.after.catalog) == RowCount(s.catalog) + 2
      && |Items(s2.after.users[key].publishedBook)| == |Items(s.users[key].publishedBook)| + 2
  {
    var s1 := PublishBookSpec(s, userId, bookDto, id1, {}).after;
    var key := FindById(s.users, userId).key;
    assert key in s1.users;
    assert FindById(s1.users, userId).Found?;
  }

  /** PublishBook keeps phones unique, keys in agreement, and wishlists and carts unique. */
  lemma PublishKeepsInvariants(s: Stores, userId: string, bookDto: Option<Book>, assignedId: int,
                               failing: set<StoreCall>)
    requires PhonesUnique(s.users) && KeysAgree(s.users) && ListsUnique(s.users)
    ensures var r := PublishBookSpec(s, userId, bookDto, assignedId, failing);
      PhonesUnique(r.after.users) && KeysAgree(r.after.users) && ListsUnique(r.after.users)
  {
    var r := PublishBookSpec(s, userId, bookDto, assignedId, failing);
    if r.after.users != s.users {
      var look := FindById(s.users, userId);
      var owner := look.user.(publishedBook := Some(Items(look.user.publishedBook) + [PublishSnapshot(bookDto.value, look.user)]));
      assert r.after.users == s.users[look.key := owner];
      ListWriteKeepsInvariants(s.users, look.key, owner);
    }
  }

  /** A successful publish keeps the two stores coherent. */
  lemma PublishKeepsCoherent(s: Stores, userId: string, bookDto: Option<Book>, assignedId: int,
                             failing: set<StoreCall>)
    requires Coherent(s)
    requires PublishBookSpec(s, userId, bookDto, assignedId, failing).outcome == Ok
    ensures Coherent(PublishBookSpec(s, userId, bookDto, assignedId, failing).after)
  {
    var look := FindById(s.users, userId);
    var snap := PublishSnapshot(bookDto.value, look.user);
    var owner := look.user.(publishedBook := Some(Items(look.user.publishedBook) + [snap]));
    var row := RowOf(snap, userId, assignedId);
    var c := InsertBook(s.catalog, snap.isbn, row).value;
    assert PublishBookSpec(s, userId, bookDto, assignedId, failing).after == Stores(c, s.users[look.key := owner]);
    CoherentAfterAppend(s, look.key, owner, snap, row, c);
  }

  /** Coherence after one document's published list grows by a snapshot and the catalog gains
      the snapshot's row, owned by that document. */
  lemma CoherentAfterAppend(s: Stores, key: ObjectIdText, owner: User, snap: Book, row: Row, c: Catalog)
    requires Coherent(s) && key in s.users
    requires Items(owner.publishedBook) == Items(s.users[key].publishedBook) + [snap]
    requires InsertBook(s.catalog, snap.isbn, row) == Some(c)
    requires ParseObjectId(row.owner) == Some(key)
    ensures Coherent(Stores(c, s.users[key := owner]))
  {
    PublishedHaveRowsAfterAppend(s, key, owner, snap, row, c);
    RowsArePublishedAfterAppend(s, key, owner, snap, row, c);
  }

  /** The first half of coherence after a publish: every published ISBN, the new one included, has its owner's row. */
  lemma PublishedHaveRowsAfterAppend(s: Stores, key: ObjectIdText, owner: User, snap: Book, row: Row, c: Catalog)
    requires PublishedHaveRows(s) && key in s.users
    requires Items(owner.publishedBook) == Items(s.users[key].publishedBook) + [snap]
    requires InsertBook(s.catalog, snap.isbn, row) == Some(c)
    requires ParseObjectId(row.owner) == Some(key)
    ensures PublishedHaveRows(Stores(c, s.users[key := owner]))
  {
    var t := Stores(c, s.users[key := owner]);
    var list := Items(s.users[key].publishedBook);
    forall k, isbn | k in t.users && HasIsbn(Items(t.users[k].publishedBook), isbn)
      ensures isbn in c.rows && ParseObjectId(c.rows[isbn].owner) == Some(k)
    {
      if k == key {
        HasIsbnAppend(list, snap, isbn);
        if snap.isbn == Some(isbn) {
          assert FindByIsbn(c, isbn) == Some(row);
        } else {
          assert FindByIsbn(c, isbn) == FindByIsbn(s.catalog, isbn);
          assert c.rows[isbn] == s.catalog.rows[isbn];
        }
      } else {
        assert t.users[k] == s.users[k];
        assert isbn in s.catalog.rows;
        assert FindByIsbn(c, isbn) == FindByIsbn(s.catalog, isbn);
        assert c.rows[isbn] == s.catalog.rows[isbn];
      }
    }
  }

  /** The second half of coherence after a publish: every row, the new one included, is published by its owner. */
  lemma RowsArePublishedAfterAppend(s: Stores, key: ObjectIdText, owner: User, snap: Book, row: Row, c: Catalog)
    requires RowsArePublished(s) && key in s.users
    requires Items(owner.publishedBook) == Items(s.users[key].publishedBook) + [snap]
    requires InsertBook(s.catalog, snap.isbn, row) == Some(c)
    requires ParseObjectId(row.owner) == Some(key)
    ensures RowsArePublished(Stores(c, s.users[key := owner]))
  {
    var t := Stores(c, s.users[key := owner]);
    var list := Items(s.users[key].publishedBook);
    forall isbn | isbn in c.rows
      ensures var o := ParseObjectId(c.rows[isbn].owner);
        o.Some? && o.value in t.users && HasIsbn(Items(t.users[o.value].publishedBook), isbn)
    {
      HasIsbnAppend(list, snap, isbn);
      if snap.isbn == Some(isbn) {
        assert FindByIsbn(c, isbn) == Some(row);
        assert c.rows[isbn] == row;
      } else {
        assert FindByIsbn(c, isbn) == FindByIsbn(s.catalog, isbn);
        assert c.rows[isbn] == s.catalog.rows[isbn];
        var o := ParseObjectId(s.catalog.rows[isbn].owner).value;
        assert o in s.users && HasIsbn(Items(s.users[o].publishedBook), isbn);
      }
    }
  }

  /** The partial failure of PublishBook: when the insert fails after the snapshot was written,
      the snapshot has no row and the stores are no longer coherent. */
  lemma PublishInsertFailureOrphansSnapshot(s: Stores, userId: string, bookDto: Option<Book>,
                                            assignedId: int, failing: set<StoreCall>)
    requires ValidBookInput(bookDto) && bookDto.value.isbn.Some?
    requires FindUserCall !in failing && IsbnCheckCall !in failing && UpdateUserCall !in failing
    requires InsertRowCall in failing
    requires FindById(s.users, userId).Found? && !IsbnPresent(s.catalog, bookDto.value.isbn)
    ensures var r := PublishBookSpec(s, userId, bookDto, assignedId, failing);
      r.outcome == ServerError && !Coherent(r.after)
  {
    var r := PublishBookSpec(s, userId, bookDto, assignedId, failing);
    var look := FindById(s.users, userId);
    var snap := PublishSnapshot(bookDto.value, look.user);
    var isbn := bookDto.value.isbn.value;
    var list := Items(look.user.publishedBook) + [snap];
    assert list[|list| - 1].isbn == Some(isbn);
    assert HasIsbn(Items(r.after.users[look.key].publishedBook), isbn);
    assert isbn !in r.after.catalog.rows;
  }

  // ---------------------------------------------------------------- AddToWishlist, AddToCart

  /** Every outcome but 200 leaves both stores unchanged; a 200 changes only the user's named list,
      which grows by the copy of the catalog row. */
  lemma AddAppendsCopy(s: Stores, which: ListName, userId: string, isbn: string, failing: set<StoreCall>)
    ensures var r := AddToListSpec(s, which, userId, isbn, failing);
      r.outcome != Ok ==> r.after == s
    ensures var r := AddToListSpec(s, which, userId, isbn, failing);
      r.outcome == Ok ==>
        var look := FindById(s.users, userId);
        && look.Found? && isbn in s.catalog.rows
        && r.after.catalog == s.catalog
        && r.after.users.Keys == s.users.Keys
        && (forall k :: k in s.users && k != look.key ==> r.after.users[k] == s.users[k])
        && ListOf(r.after.users[look.key], which)
           == Some(Items(ListOf(look.user, which)) + [CopyOfRow(isbn, s.catalog.rows[isbn])])
        && r.after.users[look.key].(wishlist := look.user.wishlist, cart := look.user.cart) == look.user
        && (forall o: ListName :: o != which ==> ListOf(r.after.users[look.key], o) == ListOf(look.user, o))
  {
  }

  /** With the user found and the catalog read, a missing row is a 500, not a 404. */
  lemma AddMissingRowFails(s: Stores, which: ListName, userId: string, isbn: string, failing: set<StoreCall>)
    requires FindUserCall !in failing && RowSelectCall !in failing && FindById(s.users, userId).Found?
    requires !IsbnPresent(s.catalog, Some(isbn))
    ensures AddToListSpec(s, which, userId, isbn, failing) == Step(ServerError, s)
  {
  }

  /** With the user found and the row present, the request is a 409 exactly when the named list
      already holds a book with that ISBN. */
  lemma AddConflictIffListed(s: Stores, which: ListName, userId: string, isbn: string, failing: set<StoreCall>)
    requires FindUserCall !in failing && RowSelectCall !in failing && FindById(s.users, userId).Found?
    requires IsbnPresent(s.catalog, Some(isbn))
    ensures var r := AddToListSpec(s, which, userId, isbn, failing);
      r.outcome == Conflict <==> HasIsbn(Items(ListOf(FindById(s.users, userId).user, which)), isbn)
  {
  }

  /** AddToWishlist and AddToCart keep ISBNs unique within every wishlist and cart, and keep phones
      unique and keys in agreement. */
  lemma AddKeepsInvariants(s: Stores, which: ListName, userId: string, isbn: string, failing: set<StoreCall>)
    requires PhonesUnique(s.users) && KeysAgree(s.users) && ListsUnique(s.users)
    ensures var r := AddToListSpec(s, which, userId, isbn, failing);
      PhonesUnique(r.after.users) && KeysAgree(r.after.users) && ListsUnique(r.after.users)
  {
    var r := AddToListSpec(s, which, userId, isbn, failing);
    if r.outcome == Ok {
      var look := FindById(s.users, userId);
      var list := Items(ListOf(look.user, which));
      var copy := CopyOfRow(isbn, s.catalog.rows[isbn]);
      var u := WithList(look.user, which, list + [copy]);
      assert r.after.users == s.users[look.key := u];
      ListWriteKeepsInvariants(s.users, look.key, u);
      AppendKeepsUnique(list, copy);
      forall k | k in r.after.users
        ensures UniqueIsbns(Items(r.after.users[k].wishlist)) && UniqueIsbns(Items(r.after.users[k].cart))
      {
        if k == look.key {
          assert ListOf(u, which) == Some(list + [copy]);
          match which
          case Wishlist => assert u.cart == look.user.cart;
          case Cart => assert u.wishlist == look.user.wishlist;
        }
      }
    }
  }

  /** Adding the same ISBN to the same list twice: the second request is a 409 that changes
      nothing, and the list holds exactly one book with that ISBN, the last one. */
  lemma AddTwiceConflicts(s: Stores, which: ListName, userId: string, isbn: string,
                          failing1: set<StoreCall>, failing2: set<StoreCall>)
    requires AddToListSpec(s, which, userId, isbn, failing1).outcome == Ok
    requires FindUserCall !in failing2 && RowSelectCall !in failing2
    ensures var s1 := AddToListSpec(s, which, userId, isbn, failing1).after;
      AddToListSpec(s1, which, userId, isbn, failing2) == Step(Conflict, s1)
    ensures var s1 := AddToListSpec(s, which, userId, isbn, failing1).after;
      var key := FindById(s.users, userId).key;
      var list := Items(ListOf(s1.users[key], which));
      && |list| > 0 && list[|list| - 1].isbn == Some(isbn)
      && forall j :: 0 <= j < |list| && list[j].isbn == Some(isbn) ==> j == |list| - 1
  {
    var s1 := AddToListSpec(s, which, userId, isbn, failing1).after;
    var look := FindById(s.users, userId);
    var old' := Items(ListOf(look.user, which));
    var copy := CopyOfRow(isbn, s.catalog.rows[isbn]);
    var list := Items(ListOf(s1.users[look.key], which));
    assert list == old' + [copy];
    assert FindById(s1.users, userId).Found?;
    assert list[|list| - 1] == copy;
    assert HasIsbn(list, isbn);
    assert forall j :: 0 <= j < |old'| ==> list[j] == old'[j];
  }

  /** Neither the catalog nor any PublishedBook list changes, so coherence is kept. */
  lemma AddKeepsCoherent(s: Stores, which: ListName, userId: string, isbn: string, failing: set<StoreCall>)
    requires Coherent(s)
    ensures Coherent(AddToListSpec(s, which, userId, isbn, failing).after)
  {
    var t := AddToListSpec(s, which, userId, isbn, failing).after;
    AddAppendsCopy(s, which, userId, isbn, failing);
    CoherentSamePublished(s, t);
  }

  /** Coherence depends only on the catalog and the PublishedBook lists. */
  lemma CoherentSamePublished(s: Stores, t: Stores)
    requires Coherent(s) && t.catalog == s.catalog && t.users.Keys == s.users.Keys
    requires forall k :: k in s.users ==> t.users[k].publishedBook == s.users[k].publishedBook
    ensures Coherent(t)
  {
  }

  // ---------------------------------------------------------------- UpdateBook

  /** A null body or an empty isbn or userId is a 400 that writes nothing. */
  lemma UpdateRejects(s: Stores, userId: string, isbn: string, book: Option<Book>, updated: Catalog,
                      failing: set<StoreCall>)
    ensures book.None? || isbn == "" || userId == "" ==>
      UpdateBookSpec(s, userId, isbn, book, updated, failing) == Step(BadRequest, s)
  {
  }

  /** Past validation the catalog update runs first and stays, whatever the document update then
      answers; a failure of the catalog update itself is a 500 that changes nothing. */
  lemma UpdateChangesCatalogFirst(s: Stores, userId: string, isbn: string, book: Option<Book>,
                                  updated: Catalog, failing: set<StoreCall>)
    requires book.Some? && isbn != "" && userId != ""
    ensures var r := UpdateBookSpec(s, userId, isbn, book, updated, failing);
      UpdateRowCall in failing ==> r == Step(ServerError, s)
    ensures var r := UpdateBookSpec(s, userId, isbn, book, updated, failing);
      UpdateRowCall !in failing ==> r.after.catalog == updated
  {
  }

  /** With the user found, the result is 200 exactly when the positional update modified the
      first PublishedBook element carrying the ISBN; that element then takes the ten fields of the
      body and keeps its BookId and ISBN, and no other element, list or user changes. A 404 writes
      no document. */
  lemma UpdateSetsFirstPublished(s: Stores, userId: string, isbn: string, book: Option<Book>,
                                 updated: Catalog, failing: set<StoreCall>)
    requires book.Some? && isbn != "" && userId != ""
    requires UpdateRowCall !in failing && UpdateUserCall !in failing
    requires FindById(s.users, userId).Found?
    ensures var r := UpdateBookSpec(s, userId, isbn, book, updated, failing);
      var list := Items(FindById(s.users, userId).user.publishedBook);
      (r.outcome == Ok <==> SetFirstMatch(list, isbn, book.value) != list)
      && (r.outcome != Ok ==> r.outcome == NotFound && r.after.users == s.users)
    ensures var r := UpdateBookSpec(s, userId, isbn, book, updated, failing);
      var key := FindById(s.users, userId).key;
      var user := FindById(s.users, userId).user;
      var list := Items(user.publishedBook);
      r.outcome == Ok ==>
        var k := FirstMatch(list, isbn).value;
        var list' := Items(r.after.users[key].publishedBook);
        && r.after.users == s.users[key := user.(publishedBook := Some(list'))]
        && |list'| == |list|
        && list'[k] == book.value.(bookId := list[k].bookId, isbn := list[k].isbn)
        && (forall j :: 0 <= j < |list| && j != k ==> list'[j] == list[j])
  {
  }

  /** An update by a user who has not published the ISBN changes the catalog row yet answers 404. */
  lemma UpdateByNonOwnerChangesCatalogOnly(s: Stores, userId: string, isbn: string, book: Option<Book>,
                                           updated: Catalog, failing: set<StoreCall>)
    requires book.Some? && isbn != "" && userId != ""
    requires UpdateRowCall !in failing && UpdateUserCall !in failing
    requires FindById(s.users, userId).Found?
    requires !HasIsbn(Items(FindById(s.users, userId).user.publishedBook), isbn)
    ensures UpdateBookSpec(s, userId, isbn, book, updated, failing) == Step(NotFound, s.(catalog := updated))
  {
  }

  /** UpdateBook never refreshes copies: every user's wishlist and cart stay as they were, and
      every PublishedBook element keeps its ISBN. */
  lemma UpdateLeavesCopiesStale(s: Stores, userId: string, isbn: string, book: Option<Book>,
                                updated: Catalog, failing: set<StoreCall>)
    ensures var r := UpdateBookSpec(s, userId, isbn, book, updated, failing);
      && r.after.users.Keys == s.users.Keys
      && forall k :: k in s.users ==>
           && r.after.users[k].wishlist == s.users[k].wishlist
           && r.after.users[k].cart == s.users[k].cart
           && |Items(r.after.users[k].publishedBook)| == |Items(s.users[k].publishedBook)|
           && forall j :: 0 <= j < |Items(s.users[k].publishedBook)| ==>
                Items(r.after.users[k].publishedBook)[j].isbn == Items(s.users[k].publishedBook)[j].isbn
  {
    var r := UpdateBookSpec(s, userId, isbn, book, updated, failing);
    if r.after.users != s.users {
      var look := FindById(s.users, userId);
      var list := Items(look.user.publishedBook);
      var u := look.user.(publishedBook := Some(SetFirstMatch(list, isbn, book.value)));
      assert r.after.users == s.users[look.key := u];
    }
  }

  /** UpdateBook keeps phones unique, keys in agreement, and wishlists and carts unique. */
  lemma UpdateKeepsInvariants(s: Stores, userId: string, isbn: string, book: Option<Book>,
                              updated: Catalog, failing: set<StoreCall>)
    requires PhonesUnique(s.users) && KeysAgree(s.users) && ListsUnique(s.users)
    ensures var r := UpdateBookSpec(s, userId, isbn, book, updated, failing);
      PhonesUnique(r.after.users) && KeysAgree(r.after.users) && ListsUnique(r.after.users)
  {
    var r := UpdateBookSpec(s, userId, isbn, book, updated, failing);
    if r.after.users != s.users {
      var look := FindById(s.users, userId);
      var u := look.user.(publishedBook := Some(SetFirstMatch(Items(look.user.publishedBook), isbn, book.value)));
      assert r.after.users == s.users[look.key := u];
      ListWriteKeepsInvariants(s.users, look.key, u);
    }
  }

  // ---------------------------------------------------------------- DeleteBook

  /** An empty isbn or userId is a 400; an ISBN without a row is a 404 that writes nothing. */
  lemma DeleteRejects(s: Stores, userId: string, isbn: string, failing: set<StoreCall>)
    ensures isbn == "" || userId == "" ==> DeleteBookSpec(s, userId, isbn, failing) == Step(BadRequest, s)
    ensures isbn != "" && userId != "" && DeleteRowCall !in failing && !IsbnPresent(s.catalog, Some(isbn)) ==>
      DeleteBookSpec(s, userId, isbn, failing) == Step(NotFound, s)
  {
  }

  /** When a row exists the delete removes it by ISBN alone, whoever owns it, and the removal
      stays whatever the document update answers. */
  lemma DeleteRemovesRowFirst(s: Stores, userId: string, isbn: string, failing: set<StoreCall>)
    requires isbn != "" && userId != "" && DeleteRowCall !in failing && IsbnPresent(s.catalog, Some(isbn))
    ensures var r := DeleteBookSpec(s, userId, isbn, failing);
      && r.after.catalog == DeleteByIsbn(s.catalog, isbn).0
      && FindByIsbn(r.after.catalog, isbn).None?
      && RowCount(r.after.catalog) + 1 == RowCount(s.catalog)
  {
  }

  /** With the row deleted and the user found, the result is 200 exactly when the user's
      PublishedBook list carried the ISBN; every element carrying it is then removed, the others
      are kept, and no other user or list changes. */
  lemma DeletePullsPublished(s: Stores, userId: string, isbn: string, failing: set<StoreCall>)
    requires isbn != "" && userId != "" && DeleteRowCall !in failing && UpdateUserCall !in failing
    requires IsbnPresent(s.catalog, Some(isbn)) && FindById(s.users, userId).Found?
    ensures var r := DeleteBookSpec(s, userId, isbn, failing);
      var look := FindById(s.users, userId);
      var list := Items(look.user.publishedBook);
      && (r.outcome == Ok <==> HasIsbn(list, isbn))
      && (r.outcome != Ok ==> r.outcome == NotFound && r.after.users == s.users)
      && (r.outcome == Ok ==>
            && r.after.users == s.users[look.key := look.user.(publishedBook := Some(PullIsbn(list, isbn)))]
            && !HasIsbn(PullIsbn(list, isbn), isbn)
            && |PullIsbn(list, isbn)| < |list|)
  {
    var look := FindById(s.users, userId);
    var list := Items(look.user.publishedBook);
    PullHasIsbn(list, isbn, isbn);
  }

  /** Deleting an ISBN a second time is a 404 that changes nothing. */
  lemma DeleteTwiceNotFound(s: Stores, userId: string, isbn: string, userId2: string,
                            failing1: set<StoreCall>, failing2: set<StoreCall>)
    requires isbn != "" && userId != "" && DeleteRowCall !in failing1
    requires userId2 != "" && DeleteRowCall !in failing2
    ensures var s1 := DeleteBookSpec(s, userId, isbn, failing1).after;
      DeleteBookSpec(s1, userId2, isbn, failing2) == Step(NotFound, s1)
  {
    DeleteTwice(s.catalog, isbn);
  }

  /** DeleteBook keeps phones unique, keys in agreement, and wishlists and carts unique. */
  lemma DeleteKeepsInvariants(s: Stores, userId: string, isbn: string, failing: set<StoreCall>)
    requires PhonesUnique(s.users) && KeysAgree(s.users) && ListsUnique(s.users)
    ensures var r := DeleteBookSpec(s, userId, isbn, failing);
      PhonesUnique(r.after.users) && KeysAgree(r.after.users) && ListsUnique(r.after.users)
  {
    var r := DeleteBookSpec(s, userId, isbn, failing);
    if r.outcome == Ok {
      var look := FindById(s.users, userId);
      var u := look.user.(publishedBook := Some(PullIsbn(Items(look.user.publishedBook), isbn)));
      assert r.after.users == s.users[look.key := u];
      ListWriteKeepsInvariants(s.users, look.key, u);
    }
  }

  /** A successful delete by the owner keeps the two stores coherent. */
  lemma DeleteKeepsCoherent(s: Stores, userId: string, isbn: string, failing: set<StoreCall>)
    requires Coherent(s)
    requires DeleteBookSpec(s, userId, isbn, failing).outcome == Ok
    ensures Coherent(DeleteBookSpec(s, userId, isbn, failing).after)
  {
    var r := DeleteBookSpec(s, userId, isbn, failing);
    assert isbn != "" && userId != "" && DeleteRowCall !in failing && UpdateUserCall !in failing;
    assert DeleteByIsbn(s.catalog, isbn).1 != 0;
    var look := FindById(s.users, userId);
    assert look.Found?;
    var list := Items(look.user.publishedBook);
    assert HasIsbn(list, isbn);
    var owner := look.user.(publishedBook := Some(PullIsbn(list, isbn)));
    assert r.after == Stores(DeleteByIsbn(s.catalog, isbn).0, s.users[look.key := owner]);
    CoherentAfterPull(s, look.key, owner, isbn);
  }

  /** Coherence after the row of an ISBN goes and its owner's published list drops the ISBN. */
  lemma CoherentAfterPull(s: Stores, key: ObjectIdText, owner: User, isbn: string)
    requires Coherent(s) && key in s.users && HasIsbn(Items(s.users[key].publishedBook), isbn)
    requires Items(owner.publishedBook) == PullIsbn(Items(s.users[key].publishedBook), isbn)
    ensures Coherent(Stores(DeleteByIsbn(s.catalog, isbn).0, s.users[key := owner]))
  {
    PublishedHaveRowsAfterPull(s, key, owner, isbn);
    RowsArePublishedAfterPull(s, key, owner, isbn);
  }

  /** The first half of coherence after a delete: every ISBN still published keeps its owner's row. */
  lemma PublishedHaveRowsAfterPull(s: Stores, key: ObjectIdText, owner: User, isbn: string)
    requires PublishedHaveRows(s) && key in s.users && HasIsbn(Items(s.users[key].publishedBook), isbn)
    requires Items(owner.publishedBook) == PullIsbn(Items(s.users[key].publishedBook), isbn)
    ensures PublishedHaveRows(Stores(DeleteByIsbn(s.catalog, isbn).0, s.users[key := owner]))
  {
    var c := DeleteByIsbn(s.catalog, isbn).0;
    var t := Stores(c, s.users[key := owner]);
    // The row belonged to `key`, so no other document lists the ISBN as published.
    assert ParseObjectId(s.catalog.rows[isbn].owner) == Some(key);
    forall k, other | k in t.users && HasIsbn(Items(t.users[k].publishedBook), other)
      ensures other in t.catalog.rows && ParseObjectId(t.catalog.rows[other].owner) == Some(k)
    {
      if k == key {
        PublishedByOwnerAfterPull(s, key, owner, isbn, other);
      } else {
        PublishedByOtherAfterPull(s, key, isbn, k, other);
      }
      DeleteKeepsOtherRows(s.catalog, isbn, other);
    }
    assert PublishedHaveRows(t);
  }

  /** An ISBN the owner still lists after the pull is not the pulled one and has its row. */
  lemma PublishedByOwnerAfterPull(s: Stores, key: ObjectIdText, owner: User, isbn: string, other: string)
    requires PublishedHaveRows(s) && key in s.users
    requires Items(owner.publishedBook) == PullIsbn(Items(s.users[key].publishedBook), isbn)
    requires HasIsbn(Items(owner.publishedBook), other)
    ensures other != isbn && other in s.catalog.rows && ParseObjectId(s.catalog.rows[other].owner) == Some(key)
  {
    PullHasIsbn(Items(s.users[key].publishedBook), isbn, other);
  }

  /** An ISBN another document lists is not the one whose row belonged to `key`. */
  lemma PublishedByOtherAfterPull(s: Stores, key: ObjectIdText, isbn: string, k: ObjectIdText, other: string)
    requires PublishedHaveRows(s) && isbn in s.catalog.rows && ParseObjectId(s.catalog.rows[isbn].owner) == Some(key)
    requires k in s.users && k != key && HasIsbn(Items(s.users[k].publishedBook), other)
    ensures other != isbn && other in s.catalog.rows && ParseObjectId(s.catalog.rows[other].owner) == Some(k)
  {
  }

  /** The second half of coherence after a delete: every remaining row is still published by its owner. */
  lemma RowsArePublishedAfterPull(s: Stores, key: ObjectIdText, owner: User, isbn: string)
    requires RowsArePublished(s) && key in s.users
    requires Items(owner.publishedBook) == PullIsbn(Items(s.users[key].publishedBook), isbn)
    ensures RowsArePublished(Stores(DeleteByIsbn(s.catalog, isbn).0, s.users[key := owner]))
  {
    var c := DeleteByIsbn(s.catalog, isbn).0;
    var t := Stores(c, s.users[key := owner]);
    var list := Items(s.users[key].publishedBook);
    forall other | other in c.rows
      ensures var o := ParseObjectId(c.rows[other].owner);
        o.Some? && o.value in t.users && HasIsbn(Items(t.users[o.value].publishedBook), other)
    {
      assert FindByIsbn(c, isbn).None?;
      assert other != isbn;
      assert FindByIsbn(c, other) == FindByIsbn(s.catalog, other);
      assert c.rows[other] == s.catalog.rows[other];
      PullHasIsbn(list, isbn, other);
    }
  }

  /** Deleting another user's book: the row goes, the request answers 404, and the owner's
      snapshot is left without a row, so the stores are no longer coherent. */
  lemma DeleteOthersBookOrphansSnapshot(s: Stores, userId: string, isbn: string, failing: set<StoreCall>)
    requires Coherent(s)
    requires isbn != "" && userId != "" && DeleteRowCall !in failing && UpdateUserCall !in failing
    requires IsbnPresent(s.catalog, Some(isbn)) && FindById(s.users, userId).Found?
    requires ParseObjectId(s.catalog.rows[isbn].owner) != Some(FindById(s.users, userId).key)
    ensures var r := DeleteBookSpec(s, userId, isbn, failing);
      r.outcome == NotFound && !Coherent(r.after)
  {
    var look := FindById(s.users, userId);
    var owner := ParseObjectId(s.catalog.rows[isbn].owner).value;
    assert !HasIsbn(Items(look.user.publishedBook), isbn);
    var c := DeleteByIsbn(s.catalog, isbn).0;
    assert DeleteBookSpec(s, userId, isbn, failing) == Step(NotFound, Stores(c, s.users));
    assert FindByIsbn(c, isbn).None?;
    RowMissingBreaksCoherent(Stores(c, s.users), owner, isbn);
  }

  /** A published ISBN without a row is incoherent. */
  lemma RowMissingBreaksCoherent(s: Stores, k: ObjectIdText, isbn: string)
    requires k in s.users && HasIsbn(Items(s.users[k].publishedBook), isbn) && isbn !in s.catalog.rows
    ensures !Coherent(s)
  {
  }
}
