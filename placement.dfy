/** What order placement computes, as functions of the product catalogue read
    before any write: the read-only pre-pass over the items (Stage), the
    monetary total (OrderTotal) and the effect of the write phase (Commit).
    OrderService.CreateOrder is proved against these. */
module OrderPlacement {
  import opened Errors
  import opened Domain

  /** One item of the pre-pass: fetch the product, check its stock, and return
      the copy with the quantity taken off. */
  function Reserve(c: Catalogue, item: OrderItem): (r: Result<Product>)
    ensures r.Ok? <==> item.productId in c && c[item.productId].stock >= item.quantity
    ensures item.productId !in c ==> r == Err(NotFound)
    ensures r.Err? && item.productId in c ==> r == Err(Validation(InsufficientStock(c[item.productId].id)))
    ensures r.Ok? ==> 0 <= r.value.stock == c[item.productId].stock - item.quantity
    ensures r.Ok? ==> r.value.(stock := c[item.productId].stock) == c[item.productId]
  {
    if item.productId !in c then Err(NotFound)
    else
      var p := c[item.productId];
      if p.stock < item.quantity then Err(Validation(InsufficientStock(p.id)))
      else Ok(p.(stock := p.stock - item.quantity))
  }

  /** Every item of a staged order names a product of the catalogue. */
  ghost predicate AllListed(c: Catalogue, items: seq<OrderItem>) {
    forall i :: 0 <= i < |items| ==> items[i].productId in c
  }

  /** The pre-pass over the items in caller order: one reserved product per
      item, or the error of the first item that cannot be reserved. */
  function Stage(c: Catalogue, items: seq<OrderItem>): (r: Result<seq<Product>>)
    ensures r.Ok? ==> |r.value| == |items| && forall i :: 0 <= i < |items| ==> Reserve(c, items[i]) == Ok(r.value[i])
    ensures r.Ok? ==> AllListed(c, items)
    decreases |items|
  {
    if items == [] then Ok([])
    else
      var n := |items| - 1;
      assert forall i :: 0 <= i < n ==> items[..n][i] == items[i];
      match Stage(c, items[..n])
      case Err(e) => Err(e)
      case Ok(staged) =>
        match Reserve(c, items[n])
        case Err(e) => Err(e)
        case Ok(p) => Ok(staged + [p])
  }

  /** Item `k` is the first item that cannot be reserved, and its error is `e`. */
  ghost predicate FailsFirstAt(c: Catalogue, items: seq<OrderItem>, k: int, e: Error) {
    && 0 <= k < |items|
    && Reserve(c, items[k]) == Err(e)
    && forall i :: 0 <= i < k ==> Reserve(c, items[i]).Ok?
  }

  /** A failed pre-pass reports the error of an item that cannot be reserved
      and before which every item can: the first offending item. */
  lemma {:induction false} StageFailsAtFirst(c: Catalogue, items: seq<OrderItem>)
    requires Stage(c, items).Err?
    ensures exists k :: FailsFirstAt(c, items, k, Stage(c, items).error)
  {
    var n := |items| - 1;
    var front := items[..n];
    var e := Stage(c, items).error;
    assert forall i :: 0 <= i < n ==> front[i] == items[i];
    if Stage(c, front).Err? {
      StageFailsAtFirst(c, front);
      var k :| FailsFirstAt(c, front, k, e);
      assert FailsFirstAt(c, items, k, e);
    } else {
      assert FailsFirstAt(c, items, n, e);
    }
  }

  /** When the items before `k` all reserve and item `k` does not, the pre-pass
      reports item `k`'s error: the first offending item decides the error. */
  lemma {:induction false} StageStopsAt(c: Catalogue, items: seq<OrderItem>, k: nat)
    requires k < |items|
    requires Stage(c, items[..k]).Ok?
    requires Reserve(c, items[k]).Err?
    ensures Stage(c, items) == Err(Reserve(c, items[k]).error)
  {
    var r := Stage(c, items);
    var staged := Stage(c, items[..k]).value;
    assert forall i :: 0 <= i < k ==> Reserve(c, items[i]) == Ok(staged[i]) by {
      forall i | 0 <= i < k ensures Reserve(c, items[i]) == Ok(staged[i]) {
        assert items[..k][i] == items[i];
      }
    }
    if r.Err? {
      StageFailsAtFirst(c, items);
      var j :| FailsFirstAt(c, items, j, r.error);
      assert j == k;
    }
  }

  /** Price as read times quantity, for one item. */
  function LineTotal(c: Catalogue, item: OrderItem): real
    requires item.productId in c
  {
    c[item.productId].price * item.quantity as real
  }

  /** The sum over the items of price as read times quantity, accumulated in
      caller order. */
  function OrderTotal(c: Catalogue, items: seq<OrderItem>): real
    requires AllListed(c, items)
  {
    if items == [] then 0.0
    else OrderTotal(c, items[..|items| - 1]) + LineTotal(c, items[|items| - 1])
  }

  /** The total of a concatenation is the sum of the totals of the parts. */
  lemma {:induction false} OrderTotalAppend(c: Catalogue, a: seq<OrderItem>, b: seq<OrderItem>)
    requires AllListed(c, a) && AllListed(c, b)
    ensures AllListed(c, a + b)
    ensures OrderTotal(c, a + b) == OrderTotal(c, a) + OrderTotal(c, b)
  {
    var ab := a + b;
    assert forall i :: 0 <= i < |ab| ==> ab[i] == if i < |a| then a[i] else b[i - |a|];
    if b == [] {
      assert ab == a;
    } else {
      var n := |b| - 1;
      assert ab[..|ab| - 1] == a + b[..n];
      assert ab[|ab| - 1] == b[n];
      OrderTotalAppend(c, a, b[..n]);
    }
  }

  /** For a valid catalogue (every price positive) and valid items (every
      quantity positive), a non-empty order has a positive total. */
  lemma {:induction false} OrderTotalPositive(c: Catalogue, items: seq<OrderItem>)
    requires CatalogueValid(c) && AllListed(c, items)
    requires forall i :: 0 <= i < |items| ==> ItemOk(items[i])
    ensures items == [] ==> OrderTotal(c, items) == 0.0
    ensures items != [] ==> OrderTotal(c, items) > 0.0
  {
    if items != [] {
      var n := |items| - 1;
      assert ValidateProduct(c[items[n].productId]).None?;
      OrderTotalPositive(c, items[..n]);
    }
  }

  /** The write phase: each staged product replaces the stored one under its ID,
      in order, so a later copy of the same product overwrites an earlier one. */
  function Commit(c: Catalogue, staged: seq<Product>): Catalogue
  {
    if staged == [] then c
    else
      var p := staged[|staged| - 1];
      Commit(c, staged[..|staged| - 1])[p.id := p]
  }

  /** Index of the last staged product with ID `k`, or -1 when there is none. */
  function LastWrite(staged: seq<Product>, k: string): (r: int)
    ensures -1 <= r < |staged|
    ensures r >= 0 ==> staged[r].id == k
    ensures forall j :: r < j < |staged| ==> staged[j].id != k
  {
    if staged == [] then -1
    else if staged[|staged| - 1].id == k then |staged| - 1
    else LastWrite(staged[..|staged| - 1], k)
  }

  /** After the write phase a key holds its last staged copy, or its old value
      when nothing was staged for it; no key appears or disappears otherwise. */
  lemma {:induction false} CommitAt(c: Catalogue, staged: seq<Product>, k: string)
    ensures k in Commit(c, staged) <==> k in c || LastWrite(staged, k) >= 0
    ensures k in Commit(c, staged) ==>
              Commit(c, staged)[k] == if LastWrite(staged, k) >= 0 then staged[LastWrite(staged, k)] else c[k]
  {
    if staged != [] {
      var n := |staged| - 1;
      CommitAt(c, staged[..n], k);
    }
  }

  /** Placing a staged order over a catalogue keyed by ID: the keys are the
      same, a product no item names keeps its value, and a product that items
      name ends with its stored stock minus the quantity of the LAST item that
      names it (each item was checked against the stock before the order), never
      negative, with all its other fields unchanged. */
  lemma PlacedProduct(c: Catalogue, items: seq<OrderItem>, k: string)
    requires KeyedById(c)
    requires Stage(c, items).Ok?
    ensures var after := Commit(c, Stage(c, items).value);
            && (k in after <==> k in c)
            && (k in c && (forall i :: 0 <= i < |items| ==> items[i].productId != k) ==> after[k] == c[k])
            && (k in c ==>
                  var j := LastWrite(Stage(c, items).value, k);
                  j >= 0 ==>
                    && items[j].productId == k
                    && (forall i :: j < i < |items| ==> items[i].productId != k)
                    && after[k] == c[k].(stock := c[k].stock - items[j].quantity)
                    && after[k].stock >= 0)
  {
    var staged := Stage(c, items).value;
    StagedIds(c, items);
    CommitAt(c, staged, k);
    var j := LastWrite(staged, k);
    if k in c && j >= 0 {
      assert Reserve(c, items[j]) == Ok(staged[j]);
    }
  }

  /** Each reserved product carries the ID its item names. */
  lemma StagedIds(c: Catalogue, items: seq<OrderItem>)
    requires KeyedById(c)
    requires Stage(c, items).Ok?
    ensures forall i :: 0 <= i < |items| ==> Stage(c, items).value[i].id == items[i].productId
  {
    var staged := Stage(c, items).value;
    forall i | 0 <= i < |items| ensures staged[i].id == items[i].productId {
      assert Reserve(c, items[i]) == Ok(staged[i]);
    }
  }

  /** The write phase keeps the catalogue keyed by ID. */
  lemma CommitKeyed(c: Catalogue, items: seq<OrderItem>)
    requires KeyedById(c)
    requires Stage(c, items).Ok?
    ensures KeyedById(Commit(c, Stage(c, items).value))
  {
    var after := Commit(c, Stage(c, items).value);
    forall k | k in after ensures after[k].id == k {
      PlacedProduct(c, items, k);
      CommitAt(c, Stage(c, items).value, k);
    }
  }

  /** Stock never goes negative: placing an order over a valid catalogue leaves
      a valid catalogue (names and prices are untouched, stocks stay >= 0). */
  lemma CommitKeepsCatalogueValid(c: Catalogue, items: seq<OrderItem>)
    requires KeyedById(c) && CatalogueValid(c)
    requires Stage(c, items).Ok?
    ensures CatalogueValid(Commit(c, Stage(c, items).value))
  {
    var after := Commit(c, Stage(c, items).value);
    forall k | k in after ensures ValidateProduct(after[k]).None? {
      PlacedProduct(c, items, k);
      assert ValidateProduct(c[k]).None?;
    }
  }
}
