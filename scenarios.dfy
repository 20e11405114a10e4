/** End-to-end scenarios over the services on fresh stores, each proved from the
    operations' contracts alone. */
module Scenarios {
  import opened Errors
  import opened Domain
  import opened Memory
  import opened Service

  /** The address the scenarios register is well formed. */
  lemma SampleEmailMatches()
    ensures MatchesEmailPattern("ada@example.com")
  {
    assert EmailSplit("ada@example.com", 3, 11);
  }

  /** Fresh stores holding product A (price 10, stock 5), product B (price 4,
      stock 1) and user U, with the services over them. */
  method OpenShop() returns (catalogue: ProductService, shop: OrderService)
    ensures fresh(shop.products) && fresh(shop.orders) && catalogue.repo == shop.products
    ensures shop.products.Valid() && shop.users.Valid() && shop.orders.Valid()
    ensures shop.products.products == map["A" := Product("A", "Widget", "", 10.0, 5),
                                          "B" := Product("B", "Gadget", "", 4.0, 1)]
    ensures shop.users.users == map["U" := User("U", "Ada", "ada@example.com")]
    ensures shop.orders.orders == map[]
  {
    var productStore := new ProductRepository();
    var userStore := new UserRepository();
    var orderStore := new OrderRepository();
    catalogue := new ProductService(productStore);
    var accounts := new UserService(userStore);
    shop := new OrderService(orderStore, userStore, productStore);

    var created := catalogue.CreateProduct(Product("", "Widget", "", 10.0, 5), "A");
    created := catalogue.CreateProduct(Product("", "Gadget", "", 4.0, 1), "B");
    SampleEmailMatches();
    var u := accounts.CreateUser(User("", "Ada", "ada@example.com"), "U");
  }

  /** An order for 3 of A totals 30 and leaves 2 in stock; a second order for
      3 of A fails on stock and leaves the 2 untouched. */
  method RepeatOrderRunsOutOfStock() returns (first: Result<Order>, second: Result<Order>, after: Result<Product>)
    ensures first == Ok(Order("O1", "U", [OrderItem("A", 3)], 30.0, 1))
    ensures second == Err(Validation(InsufficientStock("A")))
    ensures after == Ok(Product("A", "Widget", "", 10.0, 2))
  {
    var catalogue, shop := OpenShop();
    first := shop.CreateOrder("U", [OrderItem("A", 3)], "O1", 1);
    assert shop.products.products["A"] == Product("A", "Widget", "", 10.0, 2);
    second := shop.CreateOrder("U", [OrderItem("A", 3)], "O2", 2);
    after := catalogue.GetProduct("A");
  }

  /** A failing second item leaves the first item's stock untouched: no
      partial decrement, and no order is stored. */
  method SecondItemShortLeavesStock() returns (r: Result<Order>, a: Result<Product>, b: Result<Product>)
    ensures r == Err(Validation(InsufficientStock("B")))
    ensures a == Ok(Product("A", "Widget", "", 10.0, 5))
    ensures b == Ok(Product("B", "Gadget", "", 4.0, 1))
  {
    var catalogue, shop := OpenShop();
    r := shop.CreateOrder("U", [OrderItem("A", 2), OrderItem("B", 3)], "O1", 1);
    a := catalogue.GetProduct("A");
    b := catalogue.GetProduct("B");
  }

  /** Registering two users with the same email: the second gets Conflict and
      only the first is stored. */
  method DuplicateEmailConflicts() returns (first: Result<User>, second: Result<User>, stored: map<string, User>)
    ensures first == Ok(User("U1", "Ada", "ada@example.com"))
    ensures second == Err(Conflict)
    ensures stored == map["U1" := User("U1", "Ada", "ada@example.com")]
  {
    var userStore := new UserRepository();
    var accounts := new UserService(userStore);
    var ada := User("U1", "Ada", "ada@example.com");
    SampleEmailMatches();
    first := accounts.CreateUser(User("", "Ada", "ada@example.com"), "U1");
    assert userStore.users == map["U1" := ada];
    assert EmailTaken(userStore.users, ada.email) by {
      assert userStore.users["U1"].email == ada.email;
    }
    second := accounts.CreateUser(User("", "Bob", "ada@example.com"), "U2");
    stored := userStore.users;
  }

  /** A user whose email is "not-an-email" is rejected by validation before
      the store is touched. */
  method MalformedEmailRejected() returns (r: Result<User>, stored: map<string, User>)
    ensures r == Err(Validation(EmailInvalid))
    ensures stored == map[]
  {
    var userStore := new UserRepository();
    var accounts := new UserService(userStore);
    NotAnEmailRejected("U1", "Cy");
    r := accounts.CreateUser(User("", "Cy", "not-an-email"), "U1");
    stored := userStore.users;
  }

  /** After a successful delete the product is gone from reads and listings. */
  method DeletedProductIsGone() returns (deleted: Outcome, found: Result<Product>, listed: seq<Product>)
    ensures deleted == Pass
    ensures found == Err(NotFound)
    ensures listed == []
  {
    var productStore := new ProductRepository();
    var catalogue := new ProductService(productStore);

    var a := catalogue.CreateProduct(Product("", "Widget", "", 10.0, 5), "A");
    deleted := catalogue.DeleteProduct("A");
    found := catalogue.GetProduct("A");
    listed := catalogue.ListProducts();
  }
}
