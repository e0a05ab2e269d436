/** The user document store: the `Users` collection keyed by ObjectId, and the operations the
    controller applies to the embedded book lists of one document (in-memory scans, the positional
    `$` update and the pull filter). */
module DocumentStore {
  import opened Models

  /** Some element of the list carries this ISBN. */
  predicate HasIsbn(list: seq<Book>, isbn: string) {
    exists k :: 0 <= k < |list| && list[k].isbn == Some(isbn)
  }

  /** Appending keeps every ISBN the list carried and adds the new element's. */
  lemma HasIsbnAppend(list: seq<Book>, b: Book, isbn: string)
    ensures HasIsbn(list + [b], isbn) <==> HasIsbn(list, isbn) || b.isbn == Some(isbn)
  {
    var l := list + [b];
    if HasIsbn(l, isbn) && !(b.isbn == Some(isbn)) {
      var k :| 0 <= k < |l| && l[k].isbn == Some(isbn);
      assert k < |list| && list[k] == l[k];
    }
    if HasIsbn(list, isbn) {
      var k :| 0 <= k < |list| && list[k].isbn == Some(isbn);
      assert l[k] == list[k];
    }
    if b.isbn == Some(isbn) {
      assert l[|list|] == b;
    }
  }

  /** The index of the first element carrying this ISBN: the element that
      `FirstOrDefault(b => b.ISBN == isbn)` returns, and the one the positional operator `$`
      designates after an `ElemMatch` on the ISBN. */
  function FirstMatch(list: seq<Book>, isbn: string): (r: Option<nat>)
    ensures r.None? <==> !HasIsbn(list, isbn)
    ensures r.Some? ==> r.value < |list| && list[r.value].isbn == Some(isbn)
    ensures r.Some? ==> forall j :: 0 <= j < r.value ==> list[j].isbn != Some(isbn)
  {
    if list == [] then None
    else if list[0].isbn == Some(isbn) then Some(0)
    else
      match FirstMatch(list[1..], isbn)
      case None =>
        assert forall k :: 0 < k < |list| ==> list[k] == list[1..][k - 1];
        None
      case Some(k) =>
        assert forall j :: 0 < j < |list| ==> list[j] == list[1..][j - 1];
        Some(k + 1)
  }

  /** The positional update `PublishedBook.$.<field>` of UpdateBook: the ten listed fields come
      from `src`; BookId and ISBN stay. */
  function WithFields(b: Book, src: Book): (r: Book)
    ensures r == src.(bookId := b.bookId, isbn := b.isbn)
  {
    b.(title := src.title, author := src.author, genre := src.genre,
       description := src.description, price := src.price, stockQuantity := src.stockQuantity,
       trending := src.trending, bestseller := src.bestseller, publisher := src.publisher,
       imageLink := src.imageLink)
  }

  /** The list after the positional update: only the first element carrying the ISBN changes. */
  function SetFirstMatch(list: seq<Book>, isbn: string, src: Book): (r: seq<Book>)
    ensures |r| == |list|
    ensures forall j :: 0 <= j < |list| ==> r[j].isbn == list[j].isbn
    ensures FirstMatch(list, isbn).None? ==> r == list
    ensures FirstMatch(list, isbn).Some? ==>
      var k := FirstMatch(list, isbn).value;
      r[k] == WithFields(list[k], src) && forall j :: 0 <= j < |list| && j != k ==> r[j] == list[j]
  {
    if list == [] then []
    else if list[0].isbn == Some(isbn) then [WithFields(list[0], src)] + list[1..]
    else [list[0]] + SetFirstMatch(list[1..], isbn, src)
  }

  /** The positional update is a write of one element in place: the first match. */
  lemma SetFirstMatchInPlace(list: seq<Book>, isbn: string, src: Book)
    requires FirstMatch(list, isbn).Some?
    ensures var k := FirstMatch(list, isbn).value;
      SetFirstMatch(list, isbn, src) == list[k := WithFields(list[k], src)]
  {
  }

  /** `PullFilter(b => b.ISBN == isbn)`: the list without every element carrying the ISBN, the
      others kept in order. */
  function PullIsbn(list: seq<Book>, isbn: string): (r: seq<Book>)
    ensures |r| <= |list|
    ensures HasIsbn(list, isbn) ==> |r| < |list|
    ensures forall b :: b in r <==> b in list && b.isbn != Some(isbn)
    ensures !HasIsbn(list, isbn) ==> r == list
  {
    if list == [] then []
    else
      var rest := PullIsbn(list[1..], isbn);
      assert forall k :: 0 < k < |list| ==> list[k] == list[1..][k - 1];
      assert forall b :: b in list <==> b == list[0] || b in list[1..];
      if list[0].isbn == Some(isbn) then rest else [list[0]] + rest
  }

  /** The pull keeps every element that does not carry the ISBN as often as the list holds it,
      and no element that does. */
  lemma {:induction false} PullIsbnCounts(list: seq<Book>, isbn: string)
    ensures forall b :: multiset(PullIsbn(list, isbn))[b] == if b.isbn == Some(isbn) then 0 else multiset(list)[b]
  {
    if list != [] {
      assert list == [list[0]] + list[1..];
      PullIsbnCounts(list[1..], isbn);
    }
  }

  /** The pull keeps the order of the elements it keeps: pulling from a list extended by one
      element extends the pulled list by that element when it does not carry the ISBN. */
  lemma {:induction false} PullIsbnAppend(a: seq<Book>, b: Book, isbn: string)
    ensures PullIsbn(a + [b], isbn) == PullIsbn(a, isbn) + (if b.isbn == Some(isbn) then [] else [b])
  {
    if a == [] {
      assert a + [b] == [b] && [b][1..] == [];
    } else {
      assert (a + [b])[0] == a[0] && (a + [b])[1..] == a[1..] + [b];
      PullIsbnAppend(a[1..], b, isbn);
    }
  }

  /** Which ISBNs a pulled list still carries: all of the original's but the pulled one. */
  lemma PullHasIsbn(list: seq<Book>, isbn: string, other: string)
    ensures HasIsbn(PullIsbn(list, isbn), other) <==> other != isbn && HasIsbn(list, other)
  {
    var r := PullIsbn(list, isbn);
    if HasIsbn(r, other) {
      var k :| 0 <= k < |r| && r[k].isbn == Some(other);
      assert r[k] in r;
      var j :| 0 <= j < |list| && list[j] == r[k];
    }
    if other != isbn && HasIsbn(list, other) {
      var k :| 0 <= k < |list| && list[k].isbn == Some(other);
      assert list[k] in list;
      var j :| 0 <= j < |r| && r[j] == list[k];
    }
  }

  /** No two elements of the list that carry an ISBN carry the same one. */
  predicate UniqueIsbns(list: seq<Book>) {
    forall i, j :: 0 <= i < j < |list| && list[i].isbn.Some? ==> list[i].isbn != list[j].isbn
  }

  /** Appending an element whose ISBN the list lacks keeps the list's ISBNs unique. */
  lemma AppendKeepsUnique(list: seq<Book>, b: Book)
    requires UniqueIsbns(list)
    requires b.isbn.Some? ==> !HasIsbn(list, b.isbn.value)
    ensures UniqueIsbns(list + [b])
  {
    var l := list + [b];
    forall i, j | 0 <= i < j < |l| && l[i].isbn.Some?
      ensures l[i].isbn != l[j].isbn
    {
      assert l[i] == list[i];
      if j == |list| {
        assert l[j] == b;
      } else {
        assert l[j] == list[j];
      }
    }
  }

  // The Users collection

  /** Which lookup `Find(u => u.UserId == userId)` performs: an id text that is not an ObjectId
      makes the driver throw; otherwise the key it denotes is present or not. */
  datatype Lookup = Malformed | Missing(key: ObjectIdText) | Found(key: ObjectIdText, user: User)

  function FindById(users: map<ObjectIdText, User>, userId: string): (r: Lookup)
    ensures r.Malformed? <==> ParseObjectId(userId).None?
    ensures !r.Malformed? ==> ParseObjectId(userId) == Some(r.key)
    ensures r.Found? <==> !r.Malformed? && r.key in users
    ensures r.Found? ==> r.user == users[r.key]
  {
    match ParseObjectId(userId)
    case None => Malformed
    case Some(k) => if k in users then Found(k, users[k]) else Missing(k)
  }

  /** `Find(u => u.Phone == phone)` finds a document: some user has this phone (a null phone
      matches the users whose phone is null). */
  function PhoneTaken(users: map<ObjectIdText, User>, phone: Option<string>): (r: bool)
    ensures forall k :: k in users && users[k].phone == phone ==> r
    ensures users == map[] ==> !r
  {
    exists k :: k in users && users[k].phone == phone
  }

  /** The two lists a book can be copied into. */
  datatype ListName = Wishlist | Cart

  function ListOf(u: User, which: ListName): BookList {
    match which
    case Wishlist => u.wishlist
    case Cart => u.cart
  }

  /** `Update.Set(u => u.<list>, items)` on one document: the named list becomes `items`, every
      other property stays. */
  function WithList(u: User, which: ListName, items: seq<Book>): (r: User)
    ensures ListOf(r, which) == Some(items)
    ensures r.(wishlist := u.wishlist, cart := u.cart) == u
    ensures forall other: ListName :: other != which ==> ListOf(r, other) == ListOf(u, other)
  {
    match which
    case Wishlist => u.(wishlist := Some(items))
    case Cart => u.(cart := Some(items))
  }
}
