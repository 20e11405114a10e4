/** The in-memory repositories: one map per entity type, keyed by ID. Each
    operation runs as one atomic step (the reader/writer lock is not modelled).
    Every store keeps the invariant that an entity is stored under its own ID;
    the user store also keeps emails unique. */
module Memory {
  import opened Errors
  import opened Domain

  /** No two keys share a value. */
  ghost predicate Injective<K, V>(m: map<K, V>) {
    forall a, b :: a in m && b in m && m[a] == m[b] ==> a == b
  }

  /** The values stored under the keys of `ks`. */
  ghost function Image<K, V>(m: map<K, V>, ks: set<K>): set<V>
    requires ks <= m.Keys
  {
    set k | k in ks :: m[k]
  }

  /** Adding a fresh key adds its value, once, to the image of an injective map. */
  lemma ImageAdd<K, V>(m: map<K, V>, ks: set<K>, k: K)
    requires Injective(m) && ks <= m.Keys && k in m && k !in ks
    ensures multiset(Image(m, ks + {k})) == multiset(Image(m, ks)) + multiset{m[k]}
  {
  }

  /** Ranges over the map and appends every value to a fresh slice; the order
      is the map's (unspecified) iteration order. */
  method Snapshot<K, V(==)>(m: map<K, V>) returns (r: seq<V>)
    requires Injective(m)
    ensures |r| == |m|
    ensures multiset(r) == multiset(m.Values)
  {
    r := [];
    var rest := m.Keys;
    ghost var done: set<K> := {};
    while rest != {}
      invariant rest !! done && rest + done == m.Keys
      invariant |r| == |done|
      invariant multiset(r) == multiset(Image(m, done))
      decreases rest
    {
      var k :| k in rest;
      ImageAdd(m, done, k);
      r := r + [m[k]];
      rest := rest - {k};
      done := done + {k};
    }
    assert Image(m, done) == m.Values;
  }

  class ProductRepository {
    var products: Catalogue

    ghost predicate Valid()
      reads this
    {
      KeyedById(products)
    }

    constructor ()
      ensures Valid() && products == map[]
    {
      products := map[];
    }

    /** Conflict when the ID is taken; otherwise exactly that key is added. */
    method Create(product: Product) returns (r: Outcome)
      requires Valid()
      modifies this
      ensures Valid()
      ensures product.id in old(products) ==> r == Fail(Conflict) && products == old(products)
      ensures product.id !in old(products) ==> r == Pass && products == old(products)[product.id := product]
    {
      if product.id in products {
        return Fail(Conflict);
      }
      products := products[product.id := product];
      r := Pass;
    }

    /** NotFound when the ID is absent; otherwise that entry is replaced wholesale. */
    method Update(product: Product) returns (r: Outcome)
      requires Valid()
      modifies this
      ensures Valid()
      ensures product.id !in old(products) ==> r == Fail(NotFound) && products == old(products)
      ensures product.id in old(products) ==> r == Pass && products == old(products)[product.id := product]
    {
      if product.id !in products {
        return Fail(NotFound);
      }
      products := products[product.id := product];
      r := Pass;
    }

    /** NotFound when the ID is absent; otherwise exactly that key is removed. */
    method Delete(id: string) returns (r: Outcome)
      requires Valid()
      modifies this
      ensures Valid()
      ensures id !in old(products) ==> r == Fail(NotFound) && products == old(products)
      ensures id in old(products) ==> r == Pass && products == old(products) - {id}
    {
      if id !in products {
        return Fail(NotFound);
      }
      products := products - {id};
      r := Pass;
    }

    method GetByID(id: string) returns (r: Result<Product>)
      ensures id in products ==> r == Ok(products[id])
      ensures id !in products ==> r == Err(NotFound)
    {
      if id !in products {
        return Err(NotFound);
      }
      r := Ok(products[id]);
    }

    /** Every stored product exactly once, in no particular order. */
    method List() returns (r: seq<Product>)
      requires Valid()
      ensures |r| == |products|
      ensures multiset(r) == multiset(products.Values)
    {
      r := Snapshot(products);
    }
  }

  /** Some stored user has exactly this (case-sensitive) email. */
  ghost predicate EmailTaken(users: map<string, User>, email: string) {
    exists id :: id in users && users[id].email == email
  }

  class UserRepository {
    var users: map<string, User>

    ghost predicate Valid()
      reads this
    {
      && (forall id :: id in users ==> users[id].id == id)
      && (forall a, b :: a in users && b in users && users[a].email == users[b].email ==> a == b)
    }

    constructor ()
      ensures Valid() && users == map[]
    {
      users := map[];
    }

    /** Conflict when the ID is taken or another user has the same email;
        otherwise exactly that key is added. Emails stay unique. */
    method Create(user: User) returns (r: Outcome)
      requires Valid()
      modifies this
      ensures Valid()
      ensures user.id in old(users) || EmailTaken(old(users), user.email) ==>
                r == Fail(Conflict) && users == old(users)
      ensures user.id !in old(users) && !EmailTaken(old(users), user.email) ==>
                r == Pass && users == old(users)[user.id := user]
    {
      if user.id in users {
        return Fail(Conflict);
      }
      var rest := users.Keys;
      while rest != {}
        invariant users == old(users)
        invariant rest <= users.Keys
        invariant forall id :: id in users && id !in rest ==> users[id].email != user.email
        decreases rest
      {
        var id :| id in rest;
        if users[id].email == user.email {
          return Fail(Conflict);
        }
        rest := rest - {id};
      }
      users := users[user.id := user];
      r := Pass;
    }

    method GetByID(id: string) returns (r: Result<User>)
      ensures id in users ==> r == Ok(users[id])
      ensures id !in users ==> r == Err(NotFound)
    {
      if id !in users {
        return Err(NotFound);
      }
      r := Ok(users[id]);
    }

    /** A stored user with exactly this email when there is one, else NotFound. */
    method GetByEmail(email: string) returns (r: Result<User>)
      ensures r.Ok? ==> r.value in users.Values && r.value.email == email
      ensures r.Err? ==> r.error == NotFound && !EmailTaken(users, email)
    {
      var rest := users.Keys;
      while rest != {}
        invariant rest <= users.Keys
        invariant forall id :: id in users && id !in rest ==> users[id].email != email
        decreases rest
      {
        var id :| id in rest;
        if users[id].email == email {
          return Ok(users[id]);
        }
        rest := rest - {id};
      }
      r := Err(NotFound);
    }

    /** Every stored user exactly once, in no particular order. */
    method List() returns (r: seq<User>)
      requires Valid()
      ensures |r| == |users|
      ensures multiset(r) == multiset(users.Values)
    {
      r := Snapshot(users);
    }
  }

  class OrderRepository {
    var orders: map<string, Order>

    ghost predicate Valid()
      reads this
    {
      forall id :: id in orders ==> orders[id].id == id
    }

    constructor ()
      ensures Valid() && orders == map[]
    {
      orders := map[];
    }

    /** Conflict when the ID is taken; otherwise exactly that key is added. */
    method Create(order: Order) returns (r: Outcome)
      requires Valid()
      modifies this
      ensures Valid()
      ensures order.id in old(orders) ==> r == Fail(Conflict) && orders == old(orders)
      ensures order.id !in old(orders) ==> r == Pass && orders == old(orders)[order.id := order]
    {
      if order.id in orders {
        return Fail(Conflict);
      }
      orders := orders[order.id := order];
      r := Pass;
    }

    method GetByID(id: string) returns (r: Result<Order>)
      ensures id in orders ==> r == Ok(orders[id])
      ensures id !in orders ==> r == Err(NotFound)
    {
      if id !in orders {
        return Err(NotFound);
      }
      r := Ok(orders[id]);
    }

    /** Every stored order exactly once, in no particular order. */
    method List() returns (r: seq<Order>)
      requires Valid()
      ensures |r| == |orders|
      ensures multiset(r) == multiset(orders.Values)
    {
      r := Snapshot(orders);
    }
  }
}
