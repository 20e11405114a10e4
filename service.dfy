/** The service layer: the order, product and user workflows over the three
    repositories. Fresh IDs and the creation time are parameters (they come
    from a UUID generator and the clock). Each workflow runs sequentially, and
    each repository call is one atomic step. */
module Service {
  import opened Errors
  import opened Domain
  import opened OrderPlacement
  import opened Memory

  /** The order as built before validation: caller's user and items, no total
      and the zero time yet. */
  function Draft(id: string, userId: string, items: seq<OrderItem>): Order {
    Order(id, userId, items, 0.0, 0)
  }

  class OrderService {
    const orders: OrderRepository
    const users: UserRepository
    const products: ProductRepository

    constructor (orders: OrderRepository, users: UserRepository, products: ProductRepository)
      ensures this.orders == orders && this.users == users && this.products == products
    {
      this.orders := orders;
      this.users := users;
      this.products := products;
    }

    /** Places an order: validate, check the user, a read-only pre-pass over
        the items in caller order, then the writes. Every error found before
        the write phase leaves both stores as they were. */
    method CreateOrder(userId: string, items: seq<OrderItem>, id: string, now: Timestamp) returns (r: Result<Order>)
      requires orders.Valid() && users.Valid() && products.Valid()
      modifies products, orders
      ensures orders.Valid() && products.Valid()
      // structural validation comes first and touches no store
      ensures ValidateOrder(Draft(id, userId, items)).Some? ==>
                && r == Err(Validation(ValidateOrder(Draft(id, userId, items)).value))
                && unchanged(products, orders)
      // an unknown user is reported next; nothing is written
      ensures ValidateOrder(Draft(id, userId, items)).None? && userId !in users.users ==>
                r == Err(NotFound) && unchanged(products, orders)
      // the pre-pass reports the first offending item; nothing is written
      ensures ValidateOrder(Draft(id, userId, items)).None? && userId in users.users &&
              Stage(old(products.products), items).Err? ==>
                r == Err(Stage(old(products.products), items).error) && unchanged(products, orders)
      // the write phase: products updated in item order, then the order stored
      ensures ValidateOrder(Draft(id, userId, items)).None? && userId in users.users &&
              Stage(old(products.products), items).Ok? ==>
                && products.products == Commit(old(products.products), Stage(old(products.products), items).value)
                && var placed := Order(id, userId, items, OrderTotal(old(products.products), items), now);
                   && (id in old(orders.orders) ==> r == Err(Conflict) && orders.orders == old(orders.orders))
                   && (id !in old(orders.orders) ==> r == Ok(placed) && orders.orders == old(orders.orders)[id := placed])
      ensures old(CatalogueValid(products.products)) ==> CatalogueValid(products.products)
    {
      var order := Draft(id, userId, items);
      var problem := ValidateOrder(order);
      if problem.Some? {
        return Err(Validation(problem.value));
      }
      var owner := users.GetByID(userId);
      if owner.Err? {
        return Err(owner.error);
      }

      ghost var catalogue := products.products;
      var staged, total := StageItems(items);
      if staged.Err? {
        return Err(staged.error);
      }
      WriteStaged(items, staged.value);
      if old(CatalogueValid(products.products)) {
        CommitKeepsCatalogueValid(catalogue, items);
      }

      order := order.(total := total, createdAt := now);
      var created := orders.Create(order);
      if created.Fail? {
        return Err(created.error);
      }
      r := Ok(order);
    }

    /** The read-only pre-pass of CreateOrder: in caller order, fetch each
        item's product and check its stock, collecting the decremented copies
        and the running total; stop at the first item that fails. */
    method StageItems(items: seq<OrderItem>) returns (r: Result<seq<Product>>, total: real)
      ensures r == Stage(products.products, items)
      ensures r.Ok? ==> total == OrderTotal(products.products, items)
    {
      var updated: seq<Product> := [];
      total := 0.0;
      for i := 0 to |items|
        invariant Stage(products.products, items[..i]) == Ok(updated)
        invariant total == OrderTotal(products.products, items[..i])
      {
        var item := items[i];
        var found := products.GetByID(item.productId);
        if found.Err? {
          StageStopsAt(products.products, items, i);
          return Err(found.error), total;
        }
        var product := found.value;
        if product.stock < item.quantity {
          StageStopsAt(products.products, items, i);
          return Err(Validation(InsufficientStock(product.id))), total;
        }
        product := product.(stock := product.stock - item.quantity);
        total := total + product.price * item.quantity as real;
        updated := updated + [product];
        assert items[..i + 1][..i] == items[..i];
      }
      assert items[..|items|] == items;
      r := Ok(updated);
    }

    /** The write phase of CreateOrder: update each staged product in order.
        Every staged product was found by the pre-pass and nothing has been
        removed since, so no update fails. */
    method WriteStaged(ghost items: seq<OrderItem>, updated: seq<Product>)
      requires products.Valid()
      requires Stage(products.products, items) == Ok(updated)
      modifies products
      ensures products.Valid()
      ensures products.products == Commit(old(products.products), updated)
    {
      ghost var catalogue := products.products;
      for j := 0 to |updated|
        invariant products.Valid()
        invariant products.products == Commit(catalogue, updated[..j])
      {
        assert updated[j].id == items[j].productId by {
          assert Reserve(catalogue, items[j]) == Ok(updated[j]);
        }
        CommitAt(catalogue, updated[..j], updated[j].id);
        var res := products.Update(updated[j]);
        assert res.Pass?;
        assert updated[..j + 1][..j] == updated[..j];
      }
      assert updated[..|updated|] == updated;
    }

    method GetOrder(id: string) returns (r: Result<Order>)
      ensures id in orders.orders ==> r == Ok(orders.orders[id])
      ensures id !in orders.orders ==> r == Err(NotFound)
    {
      r := orders.GetByID(id);
    }

    method ListOrders() returns (r: seq<Order>)
      requires orders.Valid()
      ensures |r| == |orders.orders|
      ensures multiset(r) == multiset(orders.orders.Values)
    {
      r := orders.List();
    }
  }

  class ProductService {
    const repo: ProductRepository

    constructor (repo: ProductRepository)
      ensures this.repo == repo
    {
      this.repo := repo;
    }

    /** Stores a copy of the input under the fresh ID `id` (the input's own ID
        is ignored) once it validates. */
    method CreateProduct(input: Product, id: string) returns (r: Result<Product>)
      requires repo.Valid()
      modifies repo
      ensures repo.Valid()
      ensures ValidateProduct(input.(id := id)).Some? ==>
                r == Err(Validation(ValidateProduct(input.(id := id)).value)) && repo.products == old(repo.products)
      ensures ValidateProduct(input.(id := id)).None? && id in old(repo.products) ==>
                r == Err(Conflict) && repo.products == old(repo.products)
      ensures ValidateProduct(input.(id := id)).None? && id !in old(repo.products) ==>
                r == Ok(input.(id := id)) && repo.products == old(repo.products)[id := input.(id := id)]
      ensures old(CatalogueValid(repo.products)) ==> CatalogueValid(repo.products)
    {
      var product := Product(id, input.name, input.description, input.price, input.stock);
      var problem := ValidateProduct(product);
      if problem.Some? {
        return Err(Validation(problem.value));
      }
      var created := repo.Create(product);
      if created.Fail? {
        return Err(created.error);
      }
      r := Ok(product);
    }

    /** Replaces the four fields of the product stored under `id`, keeping the
        ID. An absent ID is reported before the new fields are validated. */
    method UpdateProduct(id: string, input: Product) returns (r: Result<Product>)
      requires repo.Valid()
      modifies repo
      ensures repo.Valid()
      ensures id !in old(repo.products) ==> r == Err(NotFound) && repo.products == old(repo.products)
      ensures id in old(repo.products) && ValidateProduct(input.(id := id)).Some? ==>
                r == Err(Validation(ValidateProduct(input.(id := id)).value)) && repo.products == old(repo.products)
      ensures id in old(repo.products) && ValidateProduct(input.(id := id)).None? ==>
                r == Ok(input.(id := id)) && repo.products == old(repo.products)[id := input.(id := id)]
      ensures old(CatalogueValid(repo.products)) ==> CatalogueValid(repo.products)
    {
      var found := repo.GetByID(id);
      if found.Err? {
        return Err(found.error);
      }
      var product := found.value;
      product := product.(name := input.name, description := input.description,
                          price := input.price, stock := input.stock);
      var problem := ValidateProduct(product);
      if problem.Some? {
        return Err(Validation(problem.value));
      }
      var updated := repo.Update(product);
      // the ID was found above, so the store's NotFound cannot occur here
      assert updated.Pass?;
      r := Ok(product);
    }

    method DeleteProduct(id: string) returns (r: Outcome)
      requires repo.Valid()
      modifies repo
      ensures repo.Valid()
      ensures id !in old(repo.products) ==> r == Fail(NotFound) && repo.products == old(repo.products)
      ensures id in old(repo.products) ==> r == Pass && repo.products == old(repo.products) - {id}
      ensures old(CatalogueValid(repo.products)) ==> CatalogueValid(repo.products)
    {
      r := repo.Delete(id);
    }

    method GetProduct(id: string) returns (r: Result<Product>)
      ensures id in repo.products ==> r == Ok(repo.products[id])
      ensures id !in repo.products ==> r == Err(NotFound)
    {
      r := repo.GetByID(id);
    }

    method ListProducts() returns (r: seq<Product>)
      requires repo.Valid()
      ensures |r| == |repo.products|
      ensures multiset(r) == multiset(repo.products.Values)
    {
      r := repo.List();
    }
  }

  class UserService {
    const repo: UserRepository

    constructor (repo: UserRepository)
      ensures this.repo == repo
    {
      this.repo := repo;
    }

    /** Registers a copy of the input under the fresh ID `id`: validation
        first, then the email lookup, then the store's own checks. */
    method CreateUser(input: User, id: string) returns (r: Result<User>)
      requires repo.Valid()
      modifies repo
      ensures repo.Valid()
      ensures ValidateUser(input.(id := id)).Some? ==>
                r == Err(Validation(ValidateUser(input.(id := id)).value)) && repo.users == old(repo.users)
      ensures ValidateUser(input.(id := id)).None? && (EmailTaken(old(repo.users), input.email) || id in old(repo.users)) ==>
                r == Err(Conflict) && repo.users == old(repo.users)
      ensures ValidateUser(input.(id := id)).None? && !EmailTaken(old(repo.users), input.email) && id !in old(repo.users) ==>
                r == Ok(input.(id := id)) && repo.users == old(repo.users)[id := input.(id := id)]
      ensures old(UsersValid(repo.users)) ==> UsersValid(repo.users)
    {
      var user := User(id, input.name, input.email);
      var problem := ValidateUser(user);
      if problem.Some? {
        return Err(Validation(problem.value));
      }
      var existing := repo.GetByEmail(user.email);
      if existing.Ok? {
        return Err(Conflict);
      }
      var created := repo.Create(user);
      if created.Fail? {
        return Err(created.error);
      }
      r := Ok(user);
    }

    method GetUser(id: string) returns (r: Result<User>)
      ensures id in repo.users ==> r == Ok(repo.users[id])
      ensures id !in repo.users ==> r == Err(NotFound)
    {
      r := repo.GetByID(id);
    }

    method ListUsers() returns (r: seq<User>)
      requires repo.Valid()
      ensures |r| == |repo.users|
      ensures multiset(r) == multiset(repo.users.Values)
    {
      r := repo.List();
    }
  }
}
