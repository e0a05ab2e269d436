/** `UserController` (UserApi/Controllers/UserController.cs): one object owning the catalog table
    and the Users collection, and one method per endpoint that runs the endpoint's store calls in
    order, returning early as the action does. Each method is proved to leave the response and the
    stores its protocol in Protocols describes, and to keep the document invariants. */
module Controller {
  import opened Models
  import opened CatalogStore
  import opened DocumentStore
  import opened Protocols
  import Properties

  class UserController {
    /** The `Book` table. */
    var catalog: Catalog
    /** The `Users` collection, keyed by ObjectId. */
    var users: map<ObjectIdText, User>

    ghost function State(): Stores
      reads this
    {
      Stores(catalog, users)
    }

    /** Phones are unique, every document carries its key, and wishlists and carts hold an ISBN
        at most once. */
    ghost predicate Valid()
      reads this
    {
      PhonesUnique(users) && KeysAgree(users) && ListsUnique(users)
    }

    constructor (catalog0: Catalog, users0: map<ObjectIdText, User>)
      ensures State() == Stores(catalog0, users0)
    {
      catalog := catalog0;
      users := users0;
    }

    /** `POST new-user`. Validation of the `[Required]` properties answers 400 before the action
        runs; the action has no try block, so a throwing call is an unhandled 500. */
    method CreateUser(newUser: Option<User>, hash: Option<string> -> Option<string>,
                      generatedId: ObjectIdText, failing: set<StoreCall>) returns (outcome: Outcome)
      modifies this
      ensures Step(outcome, State()) == CreateUserSpec(old(State()), newUser, hash, generatedId, failing)
      ensures old(Valid()) && (newUser.Some? ==>
                UniqueIsbns(Items(newUser.value.wishlist)) && UniqueIsbns(Items(newUser.value.cart)))
              ==> Valid()
    ensures (old(Coherent(State())) && (newUser.Some? ==> Items(newUser.value.publishedBook) == []))
              ==> Coherent(State())
    {
      ghost var s := State();
      Properties.CreateUserKeepsAll(s, newUser, hash, generatedId, failing);
      if newUser.None? || !MeetsRequired(newUser.value) {
        return BadRequest;
      }
      var body := newUser.value;
      if FindUserCall in failing {
        return ServerError;
      }
      if PhoneTaken(users, body.phone) {
        return BadRequest;
      }
      var hashed := hash(body.passwordHash);
      if hashed.None? {
        return ServerError;
      }
      body := body.(passwordHash := hashed);
      body := body.(publishedBook := Some(Items(body.publishedBook)));
      body := body.(wishlist := Some(Items(body.wishlist)));
      body := body.(cart := Some(Items(body.cart)));
      // InsertOne serialises UserId as an ObjectId, generating one when it is null or empty.
      var key: ObjectIdText;
      match body.userId {
        case None =>
          key := generatedId;
        case Some(t) =>
          if t == "" {
            key := generatedId;
          } else {
            var parsed := ParseObjectId(t);
            if parsed.None? {
              return ServerError;
            }
            key := parsed.value;
          }
      }
      if InsertUserCall in failing || key in users {
        return ServerError;
      }
      body := body.(userId := Some(key));
      assert body == StoredUser(newUser.value, hashed.value, key);
      users := users[key := body];
      return Ok;
    }

    /** `POST {userId}/publish-book`. */
    method PublishBook(userId: string, bookDto: Option<Book>, assignedId: int, failing: set<StoreCall>)
      returns (outcome: Outcome)
      modifies this
      ensures Step(outcome, State()) == PublishBookSpec(old(State()), userId, bookDto, assignedId, failing)
      ensures old(Valid()) ==> Valid()
      ensures old(Coherent(State())) && outcome == Ok ==> Coherent(State())
    {
      ghost var s := State();
      if old(Valid()) {
        Properties.PublishKeepsInvariants(s, userId, bookDto, assignedId, failing);
      }
      if bookDto == None || IsNullOrEmpty(bookDto.value.title) || IsNullOrEmpty(bookDto.value.author) {
        return BadRequest;
      }
      var dto := bookDto.value;
      if FindUserCall in failing {
        return ServerError;
      }
      var look := FindById(users, userId);
      if look.Malformed? {
        return ServerError;
      }
      if look.Missing? {
        return NotFound;
      }
      var user := look.user;
      if IsbnCheckCall in failing {
        return ServerError;
      }
      if IsbnPresent(catalog, dto.isbn) {
        // The log line before `return Conflict` throws FormatException on "{ISBN}": caught as a 500.
        return ServerError;
      }
      var book := PublishSnapshot(dto, user);
      var published := Items(user.publishedBook);
      published := published + [book];
      if UpdateUserCall in failing {
        return ServerError;
      }
      users := users[look.key := user.(publishedBook := Some(published))];
      if InsertRowCall in failing {
        return ServerError;
      }
      var inserted := InsertBook(catalog, book.isbn, RowOf(book, userId, assignedId));
      if inserted.None? {
        return ServerError;
      }
      catalog := inserted.value;
      if Coherent(s) {
        Properties.PublishKeepsCoherent(s, userId, bookDto, assignedId, failing);
      }
      return Ok;
    }

    /** `POST {userId}/add-to-wishlist/{isbn}`. */
    method AddToWishlist(userId: string, isbn: string, failing: set<StoreCall>) returns (outcome: Outcome)
      modifies this
      ensures Step(outcome, State()) == AddToListSpec(old(State()), Wishlist, userId, isbn, failing)
      ensures old(Valid()) ==> Valid()
      ensures old(Coherent(State())) ==> Coherent(State())
    {
      outcome := AddToList(Wishlist, userId, isbn, failing);
    }

    /** `POST {userId}/add-to-cart/{isbn}`. */
    method AddToCart(userId: string, isbn: string, failing: set<StoreCall>) returns (outcome: Outcome)
      modifies this
      ensures Step(outcome, State()) == AddToListSpec(old(State()), Cart, userId, isbn, failing)
      ensures old(Valid()) ==> Valid()
      ensures old(Coherent(State())) ==> Coherent(State())
    {
      outcome := AddToList(Cart, userId, isbn, failing);
    }

    /** The body AddToWishlist and AddToCart share, for the list `which`. */
    method AddToList(which: ListName, userId: string, isbn: string, failing: set<StoreCall>)
      returns (outcome: Outcome)
      modifies this
      ensures Step(outcome, State()) == AddToListSpec(old(State()), which, userId, isbn, failing)
      ensures old(Valid()) ==> Valid()
      ensures old(Coherent(State())) ==> Coherent(State())
    {
      ghost var s := State();
      if old(Valid()) {
        Properties.AddKeepsInvariants(s, which, userId, isbn, failing);
      }
      if old(Coherent(State())) {
        Properties.AddKeepsCoherent(s, which, userId, isbn, failing);
      }
      if FindUserCall in failing {
        return ServerError;
      }
      var look := FindById(users, userId);
      if look.Malformed? {
        return ServerError;
      }
      if look.Missing? {
        return NotFound;
      }
      var user := look.user;
      if RowSelectCall in failing {
        return ServerError;
      }
      var found := FindByIsbn(catalog, isbn);
      if found.None? {
        // `book.Title` is read before the null check: the exception is caught as a 500.
        return ServerError;
      }
      var book := CopyOfRow(isbn, found.value);
      var list := Items(ListOf(user, which));
      if FirstMatch(list, isbn).Some? {
        return Conflict;
      }
      list := list + [book];
      if UpdateUserCall in failing {
        return ServerError;
      }
      users := users[look.key := WithList(user, which, list)];
      return Ok;
    }

    /** `PUT {userId}/update-book/{isbn}`. `updated` is the table `UpdateBookByISBN` leaves. */
    method UpdateBook(userId: string, isbn: string, book: Option<Book>, updated: Catalog,
                      failing: set<StoreCall>) returns (outcome: Outcome)
      modifies this
      ensures Step(outcome, State()) == UpdateBookSpec(old(State()), userId, isbn, book, updated, failing)
      ensures old(Valid()) ==> Valid()
    {
      ghost var s := State();
      if old(Valid()) {
        Properties.UpdateKeepsInvariants(s, userId, isbn, book, updated, failing);
      }
      if book.None? || isbn == "" || userId == "" {
        return BadRequest;
      }
      if UpdateRowCall in failing {
        return ServerError;
      }
      catalog := updated;
      if UpdateUserCall in failing {
        return ServerError;
      }
      // The filter: the document with this key whose PublishedBook has an element with this ISBN.
      var look := FindById(users, userId);
      if look.Malformed? {
        return ServerError;
      }
      if look.Missing? {
        return NotFound;
      }
      var list := Items(look.user.publishedBook);
      var k := FirstMatch(list, isbn);
      if k.None? {
        return NotFound;
      }
      // The positional operator `$` designates the first matching element.
      var changed := list[k.value := WithFields(list[k.value], book.value)];
      SetFirstMatchInPlace(list, isbn, book.value);
      if changed == list {
        // Writing identical values modifies nothing: ModifiedCount is 0.
        return NotFound;
      }
      users := users[look.key := look.user.(publishedBook := Some(changed))];
      return Ok;
    }

    /** `DELETE {userId}/delete-book/{isbn}`. */
    method DeleteBook(userId: string, isbn: string, failing: set<StoreCall>) returns (outcome: Outcome)
      modifies this
      ensures Step(outcome, State()) == DeleteBookSpec(old(State()), userId, isbn, failing)
      ensures old(Valid()) ==> Valid()
      ensures old(Coherent(State())) && outcome == Ok ==> Coherent(State())
    {
      ghost var s := State();
      if old(Valid()) {
        Properties.DeleteKeepsInvariants(s, userId, isbn, failing);
      }
      if isbn == "" || userId == "" {
        return BadRequest;
      }
      if DeleteRowCall in failing {
        return ServerError;
      }
      var (remaining, rowsAffected) := DeleteByIsbn(catalog, isbn);
      if rowsAffected == 0 {
        return NotFound;
      }
      catalog := remaining;
      if UpdateUserCall in failing {
        return ServerError;
      }
      var look := FindById(users, userId);
      if look.Malformed? {
        return ServerError;
      }
      if look.Missing? {
        return NotFound;
      }
      var list := Items(look.user.publishedBook);
      if FirstMatch(list, isbn).None? {
        // The ElemMatch filter selects no document.
        return NotFound;
      }
      users := users[look.key := look.user.(publishedBook := Some(PullIsbn(list, isbn)))];
      if Coherent(s) {
        Properties.DeleteKeepsCoherent(s, userId, isbn, failing);
      }
      return Ok;
    }
  }
}
