# In-memory commerce backend, modelled in Dafny

This project models the core of a small Go commerce backend. It covers:

- **Stores.** Three in-memory stores (products, users, orders), each a map keyed by ID.
- **Workflows.** The three service workflows built on them. Order placement validates the order, checks the user, runs a read-only pre-pass over the items, then writes.
- **Validators.** The entity validators, including the email regular expression `^[^@\s]+@[^@\s]+\.[^@\s]+$`, where RE2's `\s` is the class `[\t\n\f\r ]`.

Modules:

- `Errors` (errors.dfy) holds the error kinds: Validation with a reason tag, NotFound and Conflict. It also holds the `Result`, `Outcome` and `Option` wrappers.
- `Domain` (domain.dfy) holds the entities and the three validators. Each validator returns the first problem it finds, in the source's check order. The email check exists twice:
  - an executable matcher, `IsEmail`;
  - the pattern as a ghost predicate, `MatchesEmailPattern`.

  `EmailMatchesPattern` proves the two agree.
- `Memory` (memory.dfy) holds the three stores. Each is a class with a `map` field that its methods reassign, and a `Valid()` invariant: every entity is stored under its own ID, and the user store also keeps emails unique. The user store's email scans are loops over the key set. `List` is a loop that appends each value. Because Go's map order is unspecified, it is stated as a multiset.
- `OrderPlacement` (placement.dfy) holds the specification functions. All are functions of the catalogue as read before any write:
  - `Stage`, the pre-pass;
  - `OrderTotal`, the total;
  - `Commit`, the write phase.

  The lemmas about them give the first-offending-item error, the stock after placement and the preserved catalogue validity.
- `Service` (service.dfy) holds `OrderService`, `ProductService` and `UserService`, as classes over the stores. `OrderService.CreateOrder` is proved against the `OrderPlacement` functions.
- `Scenarios` (scenarios.dfy) holds concrete end-to-end scenarios. They are derived only from the contracts above.

Fresh IDs (from a UUID generator) and the creation time (from the clock) are parameters of the workflows. No precondition says the fresh ID is unused. Instead, the store's Conflict path is modelled as the code has it.

Product stocks are written before the order is created, and nothing is rolled back if that create fails. `OrderService.CreateOrder` models this: when the fresh order ID is already taken, it ends with Conflict after the products are already updated.

## Model

| member | source | states |
|---|---|---|
| Domain.ValidateProduct | internal/domain/product.go:15-25 | A product is valid iff the name is non-empty, the price is positive and the stock is non-negative. An empty name is reported first, a non-positive price second, and a negative stock (with a good name and price) as StockNegative last. |
| Domain.ItemProblem | internal/domain/order.go:32-37 | An item is well formed iff it has a product ID and a positive quantity. A missing product ID is reported before the quantity. |
| Domain.FirstItemProblem | internal/domain/order.go:31-38 | The item scan finds no problem iff every item is well formed. |
| Domain.FirstItemProblemIsFirst | internal/domain/order.go:31-38 | The scan reports the problem of the first item that is not well formed, whatever follows it. |
| Domain.ValidateOrder | internal/domain/order.go:24-40 | An order is valid iff the user ID is non-empty, there is at least one item and every item is well formed. A missing user ID is reported first, an empty item list next, and otherwise the item scan's problem, which `FirstItemProblemIsFirst` shows is that of the first ill-formed item. |
| Domain.IndexOf | internal/domain/user.go:8 | Returns the position of the first occurrence of a character, or the length when there is none. No earlier position holds it. |
| Domain.IsEmail | internal/domain/user.go:8 | The executable email matcher: split at the first `@`, both sides made of `[^@\s]` characters, the domain side holding a `.` with a character on each side. `EmailMatchesPattern` proves it accepts exactly what the pattern matches. |
| Domain.EmailMatchesPattern | internal/domain/user.go:8 | The executable matcher accepts exactly the strings the regular expression matches: a non-empty run of non-`@`, non-whitespace characters, then `@`, then such a run, then `.`, then such a run. |
| Domain.ValidateUser | internal/domain/user.go:18-25 | A user is valid iff the name is non-empty and the email matches the pattern. The name is checked before the email. |
| Domain.AcceptedEmailShape | internal/domain/user.go:8 | Every accepted email contains exactly one `@` and none of tab, newline, form feed, carriage return or space. |
| Domain.NotAnEmailRejected | internal/domain/user.go:18-25 | `"not-an-email"` does not match the pattern, so a named user carrying it is rejected with EmailInvalid. |
| Domain.CountAppend | internal/domain/user.go:8 | Occurrence counts add up over a concatenation. This supports the one-`@` property. |
| Domain.OneAtNoSpace | internal/domain/user.go:8 | A single `@` surrounded by `[^@\s]` characters gives exactly one `@` and no whitespace. |
| Memory.Snapshot | internal/repository/memory/memory.go:71-75 | Appending every value of the map gives a sequence as long as the map that holds exactly the map's values, as a multiset. |
| Memory.ProductRepository.constructor | internal/repository/memory/memory.go:17-20 | A new product store is empty and keyed by ID. |
| Memory.ProductRepository.Create | internal/repository/memory/memory.go:22-32 | A taken ID gives Conflict and leaves the map unchanged. Otherwise exactly that key is added, bound to the product. Products stay keyed by ID. |
| Memory.ProductRepository.Update | internal/repository/memory/memory.go:34-43 | An absent ID gives NotFound and leaves the map unchanged. Otherwise that entry is replaced wholesale and every other key is unchanged. |
| Memory.ProductRepository.Delete | internal/repository/memory/memory.go:45-54 | An absent ID gives NotFound and leaves the map unchanged. Otherwise exactly that key is removed. |
| Memory.ProductRepository.GetByID | internal/repository/memory/memory.go:56-65 | Returns the stored product when the key is present, else NotFound. The store is not modified. |
| Memory.ProductRepository.List | internal/repository/memory/memory.go:67-76 | Returns every stored product exactly once, as a multiset, with length equal to the map size. |
| Memory.UserRepository.constructor | internal/repository/memory/memory.go:84-87 | A new user store is empty, keyed by ID and with unique emails. |
| Memory.UserRepository.Create | internal/repository/memory/memory.go:89-105 | A taken ID or an email some stored user already has gives Conflict and leaves the map unchanged. Otherwise exactly that key is added. Unique emails are preserved. |
| Memory.UserRepository.GetByID | internal/repository/memory/memory.go:107-116 | Returns the stored user when the key is present, else NotFound. |
| Memory.UserRepository.GetByEmail | internal/repository/memory/memory.go:118-128 | Returns a stored user with exactly this email (case-sensitive). NotFound only when no stored user has it. |
| Memory.UserRepository.List | internal/repository/memory/memory.go:130-139 | Returns every stored user exactly once, as a multiset, with length equal to the map size. |
| Memory.OrderRepository.constructor | internal/repository/memory/memory.go:147-150 | A new order store is empty and keyed by ID. |
| Memory.OrderRepository.Create | internal/repository/memory/memory.go:152-162 | A taken ID gives Conflict and leaves the map unchanged. Otherwise exactly that key is added. |
| Memory.OrderRepository.GetByID | internal/repository/memory/memory.go:164-173 | Returns the stored order when the key is present, else NotFound. |
| Memory.OrderRepository.List | internal/repository/memory/memory.go:175-184 | Returns every stored order exactly once, as a multiset, with length equal to the map size. |
| OrderPlacement.Reserve | internal/service/order_service.go:46-56 | One pre-pass step succeeds iff the product exists and its stock covers the quantity. A missing product gives NotFound. Too little stock gives the insufficient-stock Validation error naming the product. The reserved copy has the stock decremented, never negative, and every other field unchanged. |
| OrderPlacement.Stage | internal/service/order_service.go:45-57 | A successful pre-pass reserves each item in caller order, one staged product per item. Every item then names a stored product. |
| OrderPlacement.StageFailsAtFirst | internal/service/order_service.go:45-52 | A failed pre-pass reports the error of an item that cannot be reserved, and every item before it can be. This is the first offending item. |
| OrderPlacement.StageStopsAt | internal/service/order_service.go:45-52 | When the items before position k all reserve and item k does not, the pre-pass fails with item k's error. |
| OrderPlacement.LineTotal | internal/service/order_service.go:55 | One item's contribution to the total: the price as read times the quantity. |
| OrderPlacement.OrderTotal | internal/service/order_service.go:42-55 | The running total of the pre-pass: the sum of the line totals, accumulated in caller order. `OrderTotalAppend` and `OrderTotalPositive` state its properties and `StageItems` proves the loop computes it. |
| OrderPlacement.OrderTotalAppend | internal/service/order_service.go:42-55 | The total of a concatenation of items is the sum of the totals of its parts, so the total is the sum of price-as-read times quantity. |
| OrderPlacement.OrderTotalPositive | internal/service/order_service.go:42-55 | Over a valid catalogue, well-formed items give a total of 0 when there are none and a positive total otherwise. |
| OrderPlacement.Commit | internal/service/order_service.go:59-61 | The effect of the update loop: each staged product replaces the stored one under its ID, in order. `CommitAt` states what each key holds afterwards and `WriteStaged` proves the loop computes it. |
| OrderPlacement.LastWrite | internal/service/order_service.go:59-61 | Gives the index of the last staged product with a given ID, or -1 when there is none. No later staged product has that ID. |
| OrderPlacement.CommitAt | internal/service/order_service.go:59-61 | After the write loop, a key holds its last staged copy, or its old value when nothing was staged for it. Keys appear only through staged products. |
| OrderPlacement.PlacedProduct | internal/service/order_service.go:46-61 | After placement the product keys are unchanged. A product no item names keeps its value. A named product has the stored stock minus the quantity of the last item naming it, never negative, with every other field unchanged. Each occurrence is checked against the pre-order stock, and the later update overwrites the earlier one. |
| OrderPlacement.StagedIds | internal/service/order_service.go:46-56 | Each staged product carries the ID its item names. |
| OrderPlacement.CommitKeyed | internal/service/order_service.go:59-61 | The write phase keeps every product stored under its own ID. |
| OrderPlacement.CommitKeepsCatalogueValid | internal/service/order_service.go:50-61 | Stock never goes negative: placing an order over a valid catalogue leaves a valid catalogue. |
| Service.Draft | internal/service/order_service.go:28-32 | The order as first built: the fresh ID, the caller's user ID and items, no total and no time yet. `CreateOrder` returns it with the total and time filled in. |
| Service.OrderService.constructor | internal/service/order_service.go:21-24 | The service holds exactly the three given stores. |
| Service.OrderService.CreateOrder | internal/service/order_service.go:27-73 | If validation fails: that Validation error, and nothing changes. If the user is unknown: NotFound, and nothing changes. If the pre-pass fails: the first offending item's error, and nothing changes. Otherwise products become the write phase's result. The order with the fresh ID, the caller's user and items, the computed total and the given time is then stored and returned, unless the ID is taken: that gives Conflict after the product writes. Catalogue validity is preserved. |
| Service.OrderService.StageItems | internal/service/order_service.go:42-57 | The pre-pass loop computes exactly `Stage` of the catalogue. On success its running total is `OrderTotal`. |
| Service.OrderService.WriteStaged | internal/service/order_service.go:59-63 | The update loop leaves the product store equal to `Commit` of the staged products over the old catalogue. No update fails. |
| Service.OrderService.GetOrder | internal/service/order_service.go:75-78 | Behaves as the order store's GetByID. |
| Service.OrderService.ListOrders | internal/service/order_service.go:80-83 | Behaves as the order store's List. |
| Service.ProductService.constructor | internal/service/product_service.go:18-21 | The service holds exactly the given product store. |
| Service.ProductService.CreateProduct | internal/service/product_service.go:24-42 | An invalid product gives its Validation error and leaves the store unchanged. A taken fresh ID gives Conflict. Otherwise the product is stored and returned with the fresh ID and the input's four other fields, ignoring the input's own ID. Catalogue validity is preserved. |
| Service.ProductService.UpdateProduct | internal/service/product_service.go:45-65 | An absent ID gives NotFound before any validation. Invalid new fields give the Validation error, and the store is unchanged. Otherwise the stored product keeps its ID, takes the four new fields and nothing else changes. |
| Service.ProductService.DeleteProduct | internal/service/product_service.go:68-70 | Behaves as the store's Delete. Catalogue validity is preserved. |
| Service.ProductService.GetProduct | internal/service/product_service.go:73-75 | Behaves as the store's GetByID. |
| Service.ProductService.ListProducts | internal/service/product_service.go:78-80 | Behaves as the store's List. |
| Service.UserService.constructor | internal/service/user_service.go:18-21 | The service holds exactly the given user store. |
| Service.UserService.CreateUser | internal/service/user_service.go:24-46 | An invalid user gives its Validation error before any lookup, and the store is unchanged. An email already taken (or a taken fresh ID) gives Conflict, and the store is unchanged. Otherwise the user is stored with the fresh ID and the given name and email. Unique emails and user validity are preserved. |
| Service.UserService.GetUser | internal/service/user_service.go:49-51 | Behaves as the store's GetByID. |
| Service.UserService.ListUsers | internal/service/user_service.go:54-56 | Behaves as the store's List. |
| Scenarios.SampleEmailMatches | internal/domain/user.go:8 | `ada@example.com` matches the pattern. |
| Scenarios.OpenShop | internal/service/product_service.go:24-42 | Creating two products and a user on fresh stores stores exactly them under their fresh IDs. |
| Scenarios.RepeatOrderRunsOutOfStock | internal/service/order_service.go:45-72 | Ordering 3 of a product stocked at 5 and priced 10 gives total 30 and stock 2. A second order for 3 fails with insufficient stock and leaves the 2. |
| Scenarios.SecondItemShortLeavesStock | internal/service/order_service.go:45-63 | When the second item is short, the first item's stock is not decremented. |
| Scenarios.DuplicateEmailConflicts | internal/service/user_service.go:35-36 | Registering a second user with the same email gives Conflict, and only the first user is stored. |
| Scenarios.MalformedEmailRejected | internal/service/user_service.go:31-33 | A user with email `not-an-email` is rejected with EmailInvalid, and the store stays empty. |
| Scenarios.DeletedProductIsGone | internal/service/product_service.go:68-80 | After a successful delete, the product is not found and the listing is empty. |

## Left out

- Locking: the `sync.RWMutex` in each store is not modelled. Each store call is one atomic step and every workflow runs sequentially. The race in order placement, where another workflow changes stock between the pre-pass and the writes, is not covered. Nothing here claims atomicity across concurrent orders.
- `uuid.NewString()` and `time.Now().UTC()`: the fresh ID and the creation time are parameters of the workflows. `Timestamp` is an integer with no calendar meaning.
- `float64` prices and totals are modelled as exact reals. Floating-point rounding in `price * quantity` and in the running sum is not modelled.
- Error message text and `fmt.Errorf` wrapping: each validation reason is a `Problem` tag, and insufficient stock carries the product ID.
- `context.Context` parameters: unused by the stores, so dropped.
- Map iteration order: `List` results are stated as multisets, and `GetByEmail` returns some user with the email. Which one, and in what order, is not modelled.
- Update and Delete on the user and order stores: the code has none, so none are modelled.
- The Internal error kind: the core never produces one, so the error datatype has only Validation, NotFound and Conflict.
- Service.UserService.CreateUser: the branch for a lookup error other than NotFound is dead, because the email lookup fails only with NotFound. It is not modelled.
- Service.ProductService.UpdateProduct: the error return after the store's Update is unreachable, because the ID was found just before. The model proves the update succeeds instead of returning an error.
- Service.OrderService.WriteStaged: likewise, each product update in the write loop is proved to succeed, because the pre-pass found every product and nothing was removed since.
- Integer width: stocks and quantities are unbounded integers. A stock decrement only happens when stock >= quantity > 0, so the result stays between 0 and the old stock and no 64-bit overflow arises there. Overflow of `price * quantity` is a floating-point matter and is left out with the rest of floating point.
- HTTP handlers, routing, JSON binding, error-to-status mapping, configuration and server start-up are I/O plumbing and are not modelled.
