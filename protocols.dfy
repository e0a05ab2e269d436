/** What each endpoint of UserApi/Controllers/UserController.cs does to the two stores, as a
    function from the stores before the request to the response and the stores after it. The
    class in Controller runs these protocols step by step; Properties proves what they promise. */
module Protocols {
  import opened Models
  import opened CatalogStore
  import opened DocumentStore

  /** The status class of a response: 200, 400, 404, 409, 500. */
  datatype Outcome = Ok | BadRequest | NotFound | Conflict | ServerError

  /** The store calls the endpoints make. A request carries the set of calls that throw during
      it (a lost connection, a timeout, a server error); a throwing call makes the endpoint answer
      500 and leaves every earlier write in place. */
  datatype StoreCall =
    | FindUserCall      // Users.Find
    | InsertUserCall    // Users.InsertOne
    | UpdateUserCall    // Users.UpdateOne
    | IsbnCheckCall     // IsISBNPresentINTable
    | RowSelectCall     // SELECT ... FROM Book WHERE ISBN = @isbn
    | InsertRowCall     // InsertBook
    | UpdateRowCall     // UpdateBookByISBN
    | DeleteRowCall     // DELETE FROM Book WHERE ISBN = @isbn

  /** Both stores: the catalog table and the Users collection keyed by ObjectId. */
  datatype Stores = Stores(catalog: Catalog, users: map<ObjectIdText, User>)

  /** The response of one request and the stores it leaves behind. */
  datatype Step = Step(outcome: Outcome, after: Stores)

  // Invariants of the stores

  /** No two users share a phone number. */
  ghost predicate PhonesUnique(users: map<ObjectIdText, User>) {
    forall a, b :: a in users && b in users && a != b ==> users[a].phone != users[b].phone
  }

  /** Every document carries its own key as its UserId. */
  ghost predicate KeysAgree(users: map<ObjectIdText, User>) {
    forall k :: k in users ==> users[k].userId == Some(k)
  }

  /** Within each user's wishlist and within each user's cart, ISBNs are unique. */
  ghost predicate ListsUnique(users: map<ObjectIdText, User>) {
    forall k :: k in users ==> UniqueIsbns(Items(users[k].wishlist)) && UniqueIsbns(Items(users[k].cart))
  }

  /** Every ISBN in a user's PublishedBook list has a row, and the row's owner is that user. */
  ghost predicate PublishedHaveRows(s: Stores) {
    forall k, isbn :: k in s.users && HasIsbn(Items(s.users[k].publishedBook), isbn) ==>
      isbn in s.catalog.rows && ParseObjectId(s.catalog.rows[isbn].owner) == Some(k)
  }

  /** Every row's owner is a user who lists the row's ISBN as published. */
  ghost predicate RowsArePublished(s: Stores) {
    forall isbn :: isbn in s.catalog.rows ==>
      var owner := ParseObjectId(s.catalog.rows[isbn].owner);
      owner.Some? && owner.value in s.users && HasIsbn(Items(s.users[owner.value].publishedBook), isbn)
  }

  /** A published snapshot exists exactly when the catalog holds a row with that ISBN whose owner
      is that user. */
  ghost predicate Coherent(s: Stores) {
    PublishedHaveRows(s) && RowsArePublished(s)
  }

  // CreateUser

  /** The key `InsertOne` stores the document under. The id generator of a string `[BsonId]`
      represented as an ObjectId treats a null or empty UserId as unset and generates an ObjectId;
      any other UserId that is not an ObjectId cannot be serialised (None). */
  function DocumentKey(body: User, generatedId: ObjectIdText): (r: Option<ObjectIdText>)
    ensures IsNullOrEmpty(body.userId) ==> r == Some(generatedId)
    ensures r.None? <==> !IsNullOrEmpty(body.userId) && ParseObjectId(body.userId.value).None?
    ensures r.Some? && !IsNullOrEmpty(body.userId) ==>
      |r.value| == |body.userId.value| &&
      forall i :: 0 <= i < |r.value| ==> r.value[i] == LowerHex(body.userId.value[i])
  {
    match body.userId
    case None => Some(generatedId)
    case Some(t) => if t == "" then Some(generatedId) else ParseObjectId(t)
  }

  /** The document CreateUser inserts: the request body with the password hashed, the key set and
      every null list replaced by an empty one. */
  function StoredUser(body: User, hashed: string, key: ObjectIdText): (u: User)
    ensures HasAllLists(u)
    ensures Items(u.publishedBook) == Items(body.publishedBook)
    ensures Items(u.wishlist) == Items(body.wishlist) && Items(u.cart) == Items(body.cart)
    ensures u.userId == Some(key) && u.passwordHash == Some(hashed)
    ensures u.(userId := body.userId, passwordHash := body.passwordHash,
               publishedBook := body.publishedBook, wishlist := body.wishlist, cart := body.cart) == body
  {
    body.(userId := Some(key), passwordHash := Some(hashed),
          publishedBook := Some(Items(body.publishedBook)),
          wishlist := Some(Items(body.wishlist)), cart := Some(Items(body.cart)))
  }

  /** `CreateUser` (lines 35-51), `hash` standing for `PasswordHelper.HashPassword` (None when it
      throws). */
  function CreateUserSpec(s: Stores, newUser: Option<User>, hash: Option<string> -> Option<string>,
                          generatedId: ObjectIdText, failing: set<StoreCall>): (r: Step)
    ensures r.after.catalog == s.catalog
    ensures r.outcome != NotFound && r.outcome != Conflict
    ensures forall k :: k in s.users ==> k in r.after.users && r.after.users[k] == s.users[k]
  {
    if newUser.None? || !MeetsRequired(newUser.value) then Step(BadRequest, s)
    else if FindUserCall in failing then Step(ServerError, s)
    else if PhoneTaken(s.users, newUser.value.phone) then Step(BadRequest, s)
    else match hash(newUser.value.passwordHash)
      case None => Step(ServerError, s)
      case Some(hashed) =>
        match DocumentKey(newUser.value, generatedId)
        case None => Step(ServerError, s)
        case Some(key) =>
          if InsertUserCall in failing || key in s.users then Step(ServerError, s)
          else Step(Ok, s.(users := s.users[key := StoredUser(newUser.value, hashed, key)]))
  }

  // PublishBook

  /** The publisher a snapshot gets when the request names none: the owner's first and last
      name, a null name concatenating as empty. */
  function OwnerName(owner: User): string {
    OrEmpty(owner.firstName) + " " + OrEmpty(owner.lastName)
  }

  /** The book PublishBook appends to the owner's PublishedBook list: the request body without
      its BookId, Trending and Bestseller, and with the owner's name as Publisher when the body
      has none. */
  function PublishSnapshot(dto: Book, owner: User): (b: Book)
    ensures b == dto.(bookId := 0, trending := false, bestseller := false,
                      publisher := if dto.publisher.None? then Some(OwnerName(owner)) else dto.publisher)
  {
    Book(0, dto.title, dto.author, dto.genre, dto.description, dto.price, dto.stockQuantity,
         dto.isbn, false, false, Some(dto.publisher.GetOr(OwnerName(owner))), dto.imageLink)
  }

  /** The row `InsertBook` is given for a snapshot: its fields, the requesting user id as owner,
      and the id the table assigns. */
  function RowOf(snap: Book, userId: string, assignedId: int): (r: Row)
    requires snap.title.Some? && snap.author.Some?
    ensures r.owner == userId && r.bookId == assignedId
    ensures Some(r.title) == snap.title && Some(r.author) == snap.author
  {
    Row(assignedId, snap.title.value, snap.author.value, snap.genre, snap.description, snap.price,
        snap.stockQuantity, snap.publisher, snap.imageLink, userId)
  }

  /** The request body PublishBook accepts: present, with a non-empty Title and Author. */
  predicate ValidBookInput(bookDto: Option<Book>) {
    bookDto.Some? && !IsNullOrEmpty(bookDto.value.title) && !IsNullOrEmpty(bookDto.value.author)
  }

  /** `PublishBook` (lines 182-280): the user document is written before the catalog row, and an
      ISBN already in the catalog answers 500, never 409. */
  function PublishBookSpec(s: Stores, userId: string, bookDto: Option<Book>, assignedId: int,
                           failing: set<StoreCall>): (r: Step)
    ensures r.outcome != Ok ==> r.after.catalog == s.catalog
    ensures r.outcome == Ok ==> ValidBookInput(bookDto) && FindById(s.users, userId).Found?
    ensures r.outcome != Conflict
  {
    if !ValidBookInput(bookDto) then Step(BadRequest, s)
    else if FindUserCall in failing then Step(ServerError, s)
    else match FindById(s.users, userId)
      case Malformed => Step(ServerError, s)
      case Missing(_) => Step(NotFound, s)
      case Found(key, user) =>
        if IsbnCheckCall in failing then Step(ServerError, s)
        // A present ISBN reaches the log call before `return Conflict`. That call passes
        // "Conflict: ISBN {ISBN} already exists." as a composite format string, and `{ISBN}` is
        // not a valid format item, so it throws FormatException. The catch answers 500.
        else if IsbnPresent(s.catalog, bookDto.value.isbn) then Step(ServerError, s)
        else if UpdateUserCall in failing then Step(ServerError, s)
        else
          var snap := PublishSnapshot(bookDto.value, user);
          var owner := user.(publishedBook := Some(Items(user.publishedBook) + [snap]));
          var written := s.(users := s.users[key := owner]);
          if InsertRowCall in failing then Step(ServerError, written)
          else match InsertBook(s.catalog, snap.isbn, RowOf(snap, userId, assignedId))
            case None => Step(ServerError, written)
            case Some(c) => Step(Ok, written.(catalog := c))
  }

  // AddToWishlist and AddToCart

  /** The book AddToWishlist and AddToCart copy out of a catalog row: Trending and Bestseller
      unset, every nullable column kept as read. */
  function CopyOfRow(isbn: string, row: Row): (b: Book)
    ensures b.isbn == Some(isbn) && !b.trending && !b.bestseller
    ensures b.title == Some(row.title) && b.bookId == row.bookId && b.imageLink == row.imageLink
    ensures b.author.Some? && RowOf(b, row.owner, row.bookId) == row
  {
    Book(row.bookId, Some(row.title), Some(row.author), row.genre, row.description, row.price,
         row.stockQuantity, Some(isbn), false, false, row.publisher, row.imageLink)
  }

  /** `AddToWishlist` (lines 283-371) for `Wishlist`, `AddToCart` (lines 374-462) for `Cart`.
      A missing row answers 500: `book.Title` is read before the null check. */
  function AddToListSpec(s: Stores, which: ListName, userId: string, isbn: string,
                         failing: set<StoreCall>): (r: Step)
    ensures r.after.catalog == s.catalog
    ensures r.outcome != BadRequest
    ensures r.outcome == Ok ==> IsbnPresent(s.catalog, Some(isbn)) && FindById(s.users, userId).Found?
  {
    if FindUserCall in failing then Step(ServerError, s)
    else match FindById(s.users, userId)
      case Malformed => Step(ServerError, s)
      case Missing(_) => Step(NotFound, s)
      case Found(key, user) =>
        if RowSelectCall in failing then Step(ServerError, s)
        else match FindByIsbn(s.catalog, isbn)
          case None => Step(ServerError, s)
          case Some(row) =>
            var list := Items(ListOf(user, which));
            if HasIsbn(list, isbn) then Step(Conflict, s)
            else if UpdateUserCall in failing then Step(ServerError, s)
            else Step(Ok, s.(users := s.users[key := WithList(user, which, list + [CopyOfRow(isbn, row)])]))
  }

  // UpdateBook

  /** `UpdateBook` (lines 491-550). `updated` is the catalog `UpdateBookByISBN` leaves behind,
      about which nothing is known; its row count is not consulted. The result is Ok exactly when
      the positional update modified the document. */
  function UpdateBookSpec(s: Stores, userId: string, isbn: string, book: Option<Book>,
                          updated: Catalog, failing: set<StoreCall>): (r: Step)
    ensures r.outcome != Conflict
    ensures r.after.catalog == s.catalog || r.after.catalog == updated
    ensures r.outcome != Ok ==> r.after.users == s.users
  {
    if book.None? || isbn == "" || userId == "" then Step(BadRequest, s)
    else if UpdateRowCall in failing then Step(ServerError, s)
    else
      var s1 := s.(catalog := updated);
      if UpdateUserCall in failing then Step(ServerError, s1)
      else match FindById(s.users, userId)
        case Malformed => Step(ServerError, s1)
        case Missing(_) => Step(NotFound, s1)
        case Found(key, user) =>
          var list := Items(user.publishedBook);
          var changed := SetFirstMatch(list, isbn, book.value);
          if changed == list then Step(NotFound, s1)
          else Step(Ok, s1.(users := s.users[key := user.(publishedBook := Some(changed))]))
  }

  // DeleteBook

  /** `DeleteBook` (lines 553-603): the row goes by ISBN alone, whoever owns it; then every
      matching element leaves the requesting user's PublishedBook list. */
  function DeleteBookSpec(s: Stores, userId: string, isbn: string, failing: set<StoreCall>): (r: Step)
    ensures r.outcome != Conflict
    ensures r.after.catalog.unkeyed == s.catalog.unkeyed
    ensures r.outcome != Ok ==> r.after.users == s.users
  {
    if isbn == "" || userId == "" then Step(BadRequest, s)
    else if DeleteRowCall in failing then Step(ServerError, s)
    else
      var (c1, affected) := DeleteByIsbn(s.catalog, isbn);
      if affected == 0 then Step(NotFound, s)
      else
        var s1 := s.(catalog := c1);
        if UpdateUserCall in failing then Step(ServerError, s1)
        else match FindById(s.users, userId)
          case Malformed => Step(ServerError, s1)
          case Missing(_) => Step(NotFound, s1)
          case Found(key, user) =>
            var list := Items(user.publishedBook);
            if !HasIsbn(list, isbn) then Step(NotFound, s1)
            else Step(Ok, s1.(users := s.users[key := user.(publishedBook := Some(PullIsbn(list, isbn)))]))
  }
}
