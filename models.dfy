/** The record shapes of the user service: the book document embedded in user documents and
    the user document itself (UserApi/Models/User.cs). Every C# reference-typed property that
    may hold null at run time is an `Option`. */
module Models {

  datatype Option<+T> = None | Some(value: T) {
    /** The value, or `default` when None (C#'s `??`). */
    function GetOr(default: T): T {
      match this
      case Some(v) => v
      case None => default
    }
  }

  /** `string.IsNullOrEmpty`. */
  predicate IsNullOrEmpty(s: Option<string>) {
    s.None? || s.value == ""
  }

  /** The whitespace characters `string.IsNullOrWhiteSpace` skips, restricted to ASCII and the
      two Latin-1 spaces. */
  predicate IsWhiteSpace(c: char) {
    c == ' ' || c == '\t' || c == '\n' || c == '\r' || c == '\U{000B}' || c == '\U{000C}'
    || c == '\U{0085}' || c == '\U{00A0}'
  }

  /** `string.IsNullOrWhiteSpace`: what `[Required]` rejects on a string property. */
  predicate IsNullOrWhiteSpace(s: Option<string>) {
    s.None? || forall i :: 0 <= i < |s.value| ==> IsWhiteSpace(s.value[i])
  }

  /** A string operand of C# `+`: null concatenates as the empty string. */
  function OrEmpty(s: Option<string>): string {
    s.GetOr("")
  }

  /** Prices are decimals that the service only copies from one place to another. */
  type Price = int

  /** The book document the user service embeds in user documents and reads from request bodies:
      the fields the controller reads and writes. */
  datatype Book = Book(
    bookId: int,
    title: Option<string>,
    author: Option<string>,
    genre: Option<string>,
    description: Option<string>,
    price: Price,
    stockQuantity: int,
    isbn: Option<string>,
    trending: bool,
    bestseller: bool,
    publisher: Option<string>,
    imageLink: Option<string>)

  /** A `List<Book>` property: null, or an ordered list. */
  type BookList = Option<seq<Book>>

  /** The list left behind by `list ??= new List<Book>()`. */
  function Items(l: BookList): seq<Book> {
    l.GetOr([])
  }

  /** A user document. `userId` is the document key `_id`, stored as an ObjectId. */
  datatype User = User(
    userId: Option<string>,
    firstName: Option<string>,
    lastName: Option<string>,
    email: Option<string>,
    passwordHash: Option<string>,
    phone: Option<string>,
    profileImagePath: string,
    publishedBook: BookList,
    wishlist: BookList,
    cart: BookList)

  /** None of the three embedded lists is null. */
  predicate HasAllLists(u: User) {
    u.publishedBook.Some? && u.wishlist.Some? && u.cart.Some?
  }

  /** `new User()`: every nullable property unset, the profile image path empty and the three
      lists present and empty. */
  function NewUser(): (u: User)
    ensures u.userId.None? && u.phone.None? && u.email.None? && u.passwordHash.None?
    ensures u.profileImagePath == ""
    ensures HasAllLists(u)
    ensures Items(u.publishedBook) == [] && Items(u.wishlist) == [] && Items(u.cart) == []
  {
    User(None, None, None, None, None, None, "", Some([]), Some([]), Some([]))
  }

  /** The `[Required]` properties Email, PasswordHash and Phone are neither null nor blank;
      request-body validation answers 400 before the action runs otherwise. */
  function MeetsRequired(u: User): (r: bool)
    ensures r ==> u.email.Some? && u.passwordHash.Some? && u.phone.Some?
    ensures r ==> u.email.value != "" && u.passwordHash.value != "" && u.phone.value != ""
  {
    !IsNullOrWhiteSpace(u.email) && !IsNullOrWhiteSpace(u.passwordHash) && !IsNullOrWhiteSpace(u.phone)
  }

  // ObjectId keys

  predicate IsHexDigit(c: char) {
    '0' <= c <= '9' || 'a' <= c <= 'f' || 'A' <= c <= 'F'
  }

  /** The lower-case form of a hexadecimal digit. */
  function LowerHex(c: char): char {
    if 'A' <= c <= 'F' then (c as int + 32) as char else c
  }

  /** The text `ObjectId.ToString()` produces: 24 lower-case hexadecimal digits. */
  predicate IsCanonicalId(s: string) {
    |s| == 24 && forall i :: 0 <= i < |s| ==> '0' <= s[i] <= '9' || 'a' <= s[i] <= 'f'
  }

  type ObjectIdText = s: string | IsCanonicalId(s) witness "000000000000000000000000"

  /** How the driver turns a string bound to an ObjectId-represented property into a key: 24
      hexadecimal digits in either case denote the ObjectId written in lower case; any other
      string makes the driver throw (None). */
  function ParseObjectId(s: string): (r: Option<ObjectIdText>)
    ensures r.Some? <==> |s| == 24 && forall i :: 0 <= i < |s| ==> IsHexDigit(s[i])
    ensures r.Some? ==> |r.value| == |s| && forall i :: 0 <= i < |s| ==> r.value[i] == LowerHex(s[i])
  {
    if |s| == 24 && forall i :: 0 <= i < |s| ==> IsHexDigit(s[i]) then
      Some(seq(|s|, i requires 0 <= i < |s| => LowerHex(s[i])))
    else
      None
  }

  /** A key read back from the store parses to itself. */
  lemma ParseCanonical(k: ObjectIdText)
    ensures ParseObjectId(k) == Some(k)
  {
    assert forall i :: 0 <= i < |k| ==> IsHexDigit(k[i]) && LowerHex(k[i]) == k[i];
    var r := ParseObjectId(k);
    assert r.Some? && |r.value| == |k|;
    assert forall i :: 0 <= i < |k| ==> r.value[i] == k[i];
    assert r.value == k;
  }

  /** Two spellings of an ObjectId that differ only in the case of their letters denote the same key. */
  lemma ParseIgnoresCase(s: string, t: string)
    requires |s| == |t| == 24
    requires forall i :: 0 <= i < |s| ==> IsHexDigit(s[i]) && LowerHex(s[i]) == LowerHex(t[i])
    requires forall i :: 0 <= i < |t| ==> IsHexDigit(t[i])
    ensures ParseObjectId(s).Some? && ParseObjectId(s) == ParseObjectId(t)
  {
    var a, b := ParseObjectId(s), ParseObjectId(t);
    assert a.Some? && b.Some?;
    assert forall i :: 0 <= i < |s| ==> a.value[i] == b.value[i];
    assert a.value == b.value;
  }
}
