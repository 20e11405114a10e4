/** The entities of the backend and their validators (package domain).
    Validators return the first problem they find, or None when the entity is
    well formed; each checks its fields in a fixed order. */
module Domain {
  import opened Errors

  /** Creation time of an order; supplied by the caller (the clock is not modelled). */
  type Timestamp = int

  /** Prices and totals are exact reals: floating-point rounding is not modelled. */
  datatype Product = Product(id: string, name: string, description: string, price: real, stock: int)

  datatype User = User(id: string, name: string, email: string)

  datatype OrderItem = OrderItem(productId: string, quantity: int)

  datatype Order = Order(id: string, userId: string, items: seq<OrderItem>, total: real, createdAt: Timestamp)

  /** A product store's contents, keyed by product ID. */
  type Catalogue = map<string, Product>

  /** Every product is stored under its own ID. */
  ghost predicate KeyedById(c: Catalogue) {
    forall id :: id in c ==> c[id].id == id
  }

  // ---------------------------------------------------------------- products

  function ValidateProduct(p: Product): (r: Option<Problem>)
    ensures r.None? <==> p.name != "" && p.price > 0.0 && p.stock >= 0
    ensures p.name == "" ==> r == Some(NameRequired)
    ensures p.name != "" && p.price <= 0.0 ==> r == Some(PriceNotPositive)
    ensures r.Some? && p.name != "" && p.price > 0.0 ==> r == Some(StockNegative)
  {
    if p.name == "" then Some(NameRequired)
    else if p.price <= 0.0 then Some(PriceNotPositive)
    else if p.stock < 0 then Some(StockNegative)
    else None
  }

  /** Every stored product passes validation; in particular no stock is negative. */
  ghost predicate CatalogueValid(c: Catalogue) {
    forall id :: id in c ==> ValidateProduct(c[id]).None?
  }

  // ------------------------------------------------------------------ orders

  predicate ItemOk(item: OrderItem) {
    item.productId != "" && item.quantity > 0
  }

  /** The problem of one item: the product ID is checked before the quantity. */
  function ItemProblem(item: OrderItem): (r: Option<Problem>)
    ensures r.None? <==> ItemOk(item)
    ensures item.productId == "" ==> r == Some(ProductIdRequired)
    ensures r.Some? && item.productId != "" ==> r == Some(QuantityNotPositive)
  {
    if item.productId == "" then Some(ProductIdRequired)
    else if item.quantity <= 0 then Some(QuantityNotPositive)
    else None
  }

  /** Scans the items in order and reports the problem of the first bad one. */
  function FirstItemProblem(items: seq<OrderItem>): (r: Option<Problem>)
    ensures r.None? <==> forall i :: 0 <= i < |items| ==> ItemOk(items[i])
  {
    if items == [] then None
    else if !ItemOk(items[0]) then ItemProblem(items[0])
    else
      var r := FirstItemProblem(items[1..]);
      assert forall i :: 1 <= i < |items| ==> items[i] == items[1..][i - 1];
      r
  }

  /** The items are checked in order: the problem reported is that of the
      first item that is not well formed. */
  lemma {:induction false} FirstItemProblemIsFirst(items: seq<OrderItem>, k: nat)
    requires k < |items| && !ItemOk(items[k])
    requires forall i :: 0 <= i < k ==> ItemOk(items[i])
    ensures FirstItemProblem(items) == ItemProblem(items[k])
  {
    if k > 0 {
      assert ItemOk(items[0]);
      assert items[1..][k - 1] == items[k];
      assert forall i :: 0 <= i < k - 1 ==> items[1..][i] == items[i + 1];
      FirstItemProblemIsFirst(items[1..], k - 1);
    }
  }

  function ValidateOrder(o: Order): (r: Option<Problem>)
    ensures r.None? <==> o.userId != "" && |o.items| > 0 && forall i :: 0 <= i < |o.items| ==> ItemOk(o.items[i])
    ensures o.userId == "" ==> r == Some(UserIdRequired)
    ensures o.userId != "" && o.items == [] ==> r == Some(NoItems)
    ensures o.userId != "" && o.items != [] ==> r == FirstItemProblem(o.items)
  {
    if o.userId == "" then Some(UserIdRequired)
    else if |o.items| == 0 then Some(NoItems)
    else FirstItemProblem(o.items)
  }

  // ------------------------------------------------------------------- users

  /** RE2's `\s`: tab, newline, form feed, carriage return and space. */
  predicate IsSpace(c: char) {
    c == '\t' || c == '\n' || c == '\U{C}' || c == '\r' || c == ' '
  }

  /** The character class `[^@\s]`. */
  predicate EmailChar(c: char) {
    c != '@' && !IsSpace(c)
  }

  predicate AllEmailChars(s: string) {
    forall i :: 0 <= i < |s| ==> EmailChar(s[i])
  }

  /** `s` splits as `[^@\s]+ @ [^@\s]+ \. [^@\s]+` with the `@` at `at` and the `.` at `dot`. */
  predicate EmailSplit(s: string, at: int, dot: int) {
    && 0 < at && at + 1 < dot && dot + 1 < |s|
    && s[at] == '@' && s[dot] == '.'
    && AllEmailChars(s[..at]) && AllEmailChars(s[at + 1..dot]) && AllEmailChars(s[dot + 1..])
  }

  /** What `^[^@\s]+@[^@\s]+\.[^@\s]+$` accepts: the whole string has such a split. */
  ghost predicate MatchesEmailPattern(s: string) {
    exists at, dot :: EmailSplit(s, at, dot)
  }

  /** Index of the first `c` in `s`, or `|s|` when there is none. */
  function IndexOf(s: string, c: char): (r: nat)
    ensures r <= |s|
    ensures r < |s| ==> s[r] == c
    ensures forall i :: 0 <= i < r ==> s[i] != c
  {
    if s == [] then 0
    else if s[0] == c then 0
    else 1 + IndexOf(s[1..], c)
  }

  /** A `.` with at least one character on each side. */
  predicate HasInnerDot(d: string) {
    exists j :: 0 < j < |d| - 1 && d[j] == '.'
  }

  /** The email matcher: split at the first `@`, then check both sides. */
  predicate IsEmail(s: string) {
    var at := IndexOf(s, '@');
    && 0 < at < |s|
    && AllEmailChars(s[..at])
    && AllEmailChars(s[at + 1..])
    && HasInnerDot(s[at + 1..])
  }

  function ValidateUser(u: User): (r: Option<Problem>)
    ensures r.None? <==> u.name != "" && MatchesEmailPattern(u.email)
    ensures u.name == "" ==> r == Some(NameRequired)
    ensures u.name != "" && r.Some? ==> r == Some(EmailInvalid) && !MatchesEmailPattern(u.email)
  {
    EmailMatchesPattern(u.email);
    if u.name == "" then Some(NameRequired)
    else if !IsEmail(u.email) then Some(EmailInvalid)
    else None
  }

  /** Every stored user passes validation. */
  ghost predicate UsersValid(users: map<string, User>) {
    forall id :: id in users ==> ValidateUser(users[id]).None?
  }

  /** The matcher accepts exactly the strings the regular expression matches. */
  lemma EmailMatchesPattern(s: string)
    ensures IsEmail(s) <==> MatchesEmailPattern(s)
  {
    var at := IndexOf(s, '@');
    if IsEmail(s) {
      var d := s[at + 1..];
      var j :| 0 < j < |d| - 1 && d[j] == '.';
      var dot := at + 1 + j;
      assert s[at + 1..dot] == d[..j];
      assert s[dot + 1..] == d[j + 1..];
      assert EmailSplit(s, at, dot);
    }
    if MatchesEmailPattern(s) {
      var a, dot :| EmailSplit(s, a, dot);
      assert s[..a][..] == s[..a];
      assert forall i :: 0 <= i < a ==> s[i] == s[..a][i];
      assert at == a;
      var d := s[at + 1..];
      assert forall i :: 0 <= i < |d| ==> EmailChar(d[i]) by {
        forall i | 0 <= i < |d| ensures EmailChar(d[i]) {
          if at + 1 + i < dot {
            assert d[i] == s[at + 1..dot][i];
          } else if at + 1 + i > dot {
            assert d[i] == s[dot + 1..][i - (dot - at)];
          }
        }
      }
      assert d[dot - at - 1] == '.';
    }
  }

  /** Number of occurrences of `c` in `s`. */
  function Count(s: string, c: char): nat {
    if s == [] then 0 else (if s[0] == c then 1 else 0) + Count(s[1..], c)
  }

  lemma {:induction false} CountAppend(a: string, b: string, c: char)
    ensures Count(a + b, c) == Count(a, c) + Count(b, c)
  {
    if a == [] {
      assert a + b == b;
    } else {
      assert (a + b)[1..] == a[1..] + b;
      CountAppend(a[1..], b, c);
    }
  }

  lemma {:induction false} CountNoEmailChar(s: string)
    requires AllEmailChars(s)
    ensures Count(s, '@') == 0
  {
    if s != [] {
      CountNoEmailChar(s[1..]);
    }
  }

  /** A string made of `[^@\s]` characters around a single `@` has exactly one `@`
      and no whitespace. */
  lemma {:induction false} OneAtNoSpace(s: string, at: nat)
    requires at < |s| && s[at] == '@'
    requires AllEmailChars(s[..at]) && AllEmailChars(s[at + 1..])
    ensures Count(s, '@') == 1
    ensures forall i :: 0 <= i < |s| ==> !IsSpace(s[i])
  {
    var local, domain := s[..at], s[at + 1..];
    assert s == local + ([s[at]] + domain);
    CountAppend(local, [s[at]] + domain, '@');
    CountAppend([s[at]], domain, '@');
    CountNoEmailChar(local);
    CountNoEmailChar(domain);
    forall i | 0 <= i < |s| ensures !IsSpace(s[i]) {
      if i < at {
        assert s[i] == local[i];
      } else if i > at {
        assert s[i] == domain[i - at - 1];
      }
    }
  }

  /** Every accepted email has exactly one `@` and no whitespace at all. */
  lemma AcceptedEmailShape(s: string)
    requires IsEmail(s)
    ensures Count(s, '@') == 1
    ensures forall i :: 0 <= i < |s| ==> !IsSpace(s[i])
  {
    OneAtNoSpace(s, IndexOf(s, '@'));
  }

  /** "not-an-email" has no `@`, so a user carrying it is rejected with EmailInvalid. */
  lemma NotAnEmailRejected(id: string, name: string)
    requires name != ""
    ensures !MatchesEmailPattern("not-an-email")
    ensures ValidateUser(User(id, name, "not-an-email")) == Some(EmailInvalid)
  {
    var s := "not-an-email";
    assert forall i :: 0 <= i < |s| ==> s[i] != '@';
    EmailMatchesPattern(s);
  }
}
