# Wishlist service model

This project models the core of a wishlist API: each user has a wishlist of items, and each item refers to a
catalog product (modelled as an embedded copy of it). The model covers the rules the domain service uses to change a wishlist:

- creating a wishlist for a user,
- finding one by id,
- appending an item after a duplicate check and a capacity check (at most 20 items),
- removing items by item id,
- scanning for a product id and turning the scan result into a found / not-found response.

The service exists in two revisions, and the model covers both:

- `WishlistService.java` is the current revision.
- `WishListService.java` is the older one.

The two revisions share `findById`, `removeWishListProduct`, `checkProduct` and `hasProductInWishlist` line
for line. `validateProduct` is identical in both except for the class of the max-size exception
(`WishlistMaxSizeException` in the current revision, `WishListMaxSizeException` in the older one). The model
therefore defines those once:

- `WishlistRules` holds the read-only checks and the pure rules.
- `LegacyWishListService` holds the older revision's operations.
- `WishlistService` adds what the current revision changed: `saveWishList` refuses a user who already has a
  wishlist, and `updateWishList` copies a `ProductDTO` into a new `Product` before the older add logic.

Modules:

- `Wrappers`: `Option` for Java's nulls and empty `Optional`s, `Result` and `Outcome` for thrown exceptions.
- `Domain`: `Product`, `ProductDTO`, `WishListItem`, the stored `WishlistDoc` and the in-memory `Wishlist`
  class. The services update that class's item list and `updatedAt` in place. The fields are those the
  services actually use (`id`, `userId`, `createdAt`, `updatedAt`, `wishListItems`). The stale fields in
  `model/Wishlist.java` are not used.
- `Errors`: one tagged error kind per exception, with the source's message constants.
- `ProductCheckResponses`: the two `ProductCheckResponse` constructors.
- `WishlistRules`: the product scan, validation, the removal filter, the well-formedness invariant and its
  lemmas, and the read-only service methods.
- `Repository`: the MongoDB repository, as a class over `map<string, WishlistDoc>` keyed by document id.
  A save may fail nondeterministically; the services turn that failure into `InternalError`.
- `LegacyWishListService`, `WishlistService`: the two revisions.

Inputs the source takes from the environment are method parameters:

- `Instant.now()` becomes an `Instant` parameter. `updateWishList` calls it twice, so it gets two parameters.
- `UUID.randomUUID()` becomes an item id parameter.

The id the store gives to a new document is an arbitrary string chosen inside `WishlistRepository.Save`.

Behaviour of the code worth noting:

- Removal from an empty item list fails with `ResourceNotFound`; it is not a silent no-op. A null item list is
  the case that gets no error: it is stamped and saved unchanged.
- `findById` does not sort items by creation time; the code only has a TODO for it.
- The not-found error of a removal carries the `Product.registered` message constant, as the code does.
- The capacity check is an equality test (`size() == 20`). `WishlistRules.CapacityCheckIsEquality` shows that a
  list already above 20 items is not stopped by it. Through validated adds a list never gets there
  (`WishlistRules.AddPreservesWellFormed`).
- A product without an id is accepted by validation, since a null query matches nothing. After that, every
  scan of that list throws a `NullPointerException` at `item.getProduct().getId().equals(productId)`. So every
  later add or check on the same in-memory wishlist fails with `NullPointer` (`WishlistRules.IdlessAddBlocksLaterAdds`).

## Model

| member | source | states |
|---|---|---|
| `ProductCheckResponses.NotFound` | src/main/java/com/jayatech/wishlist/domain/model/dto/ProductCheckResponse.java:13-16 | The no-argument response says the product is not in the wishlist, has message `product.not.found` and carries no product. |
| `ProductCheckResponses.Found` | src/main/java/com/jayatech/wishlist/domain/model/dto/ProductCheckResponse.java:18-22 | The product response says the product is in the wishlist, has message `product.found` and carries exactly the given product. |
| `WishlistRules.LastMatchNoneIff` | src/main/java/com/jayatech/wishlist/domain/service/WishlistService.java:103-113 | The scan finds nothing exactly when no item's product id equals the query; a null query matches nothing. |
| `WishlistRules.LastMatchIsLast` | src/main/java/com/jayatech/wishlist/domain/service/WishlistService.java:106-110 | When the scan finds a product, it is the product of a matching item after which no item matches: the last match wins. |
| `WishlistRules.LastMatchHasQueriedId` | src/main/java/com/jayatech/wishlist/domain/service/WishlistService.java:107-108 | A found product has exactly the queried id. |
| `WishlistRules.ScanFoundIff` | src/main/java/com/jayatech/wishlist/domain/service/WishlistService.java:103-113 | The scan throws `NullPointer` exactly when the list is present and holds an item whose product has no id. Otherwise its result has an id exactly when the list is present and some item matches; that id is the queried one. |
| `WishlistRules.ScanFindsTheOnlyMatch` | src/main/java/com/jayatech/wishlist/domain/service/WishlistService.java:103-113 | When product ids are pairwise distinct, the scan for an item's product id returns that item's product. |
| `WishlistRules.HasProductInWishlist` | src/main/java/com/jayatech/wishlist/domain/service/WishlistService.java:103-113 | The loop returns the empty product for a null wishlist or a null list. It throws `NullPointer` when an item's product has no id. Otherwise it returns the product of the last matching item, or the empty product when nothing matches. Identical in WishListService.java:100-110. |
| `WishlistRules.ResponseFor` | src/main/java/com/jayatech/wishlist/domain/service/WishlistService.java:97-100 | The response reports found exactly when the scanned product has an id; found carries that product, not-found is the no-argument response. |
| `WishlistRules.CheckProduct` | src/main/java/com/jayatech/wishlist/domain/service/WishlistService.java:95-101 | Throws `NullPointer` exactly when the list holds an item whose product has no id. Otherwise it is found exactly when the wishlist and its list are present and some item carries the product id. A found response carries the scanned product with the queried id; otherwise the response is the not-found one. Identical in WishListService.java:92-98. |
| `WishlistRules.Validate` | src/main/java/com/jayatech/wishlist/domain/service/WishlistService.java:115-123 | `NullPointer` exactly when the list is null or holds an item whose product has no id. Otherwise it gives `RegisteredProduct` exactly when some item carries the product id. The duplicate check runs before the size check, so a full list with a duplicate is reported that way. `MaxSize` is given exactly when there is no duplicate and the list holds exactly 20 items; it passes in every other case. |
| `WishlistRules.ValidateProduct` | src/main/java/com/jayatech/wishlist/domain/service/WishlistService.java:115-123 | The method's outcome is `Validate` of the wishlist's list. WishListService.java:112-120 is identical except for the class of the max-size exception. |
| `WishlistRules.CapacityCheckIsEquality` | src/main/java/com/jayatech/wishlist/domain/service/WishlistService.java:120-122 | A list with more than 20 items, all with product ids and no duplicate, passes validation, because the size test is `==`. |
| `WishlistRules.IdlessAddBlocksLaterAdds` | src/main/java/com/jayatech/wishlist/domain/service/WishlistService.java:103-122 | Once an item whose product has no id has passed validation and been appended, validating any product against the new list fails with `NullPointer`. |
| `WishlistRules.AddPreservesWellFormed` | src/main/java/com/jayatech/wishlist/domain/service/WishlistService.java:64-69 | Appending an item to a list of at most 20 items with distinct product ids keeps both properties, provided the item passed validation. |
| `WishlistRules.LastMatch` | src/main/java/com/jayatech/wishlist/domain/service/WishlistService.java:106-110 | The product the scan loop holds after visiting a list: that of the last matching item, or none. Its meaning is stated by `LastMatchNoneIff`, `LastMatchIsLast` and `LastMatchHasQueriedId`. |
| `WishlistRules.ScanResult` | src/main/java/com/jayatech/wishlist/domain/service/WishlistService.java:103-113 | What `hasProductInWishlist` yields for a non-null wishlist: the empty product for a null list, `NullPointer` when an item's product has no id, otherwise the last match or the empty product. Characterised by `ScanFoundIff`. |
| `WishlistRules.RemoveItems` | src/main/java/com/jayatech/wishlist/domain/service/WishlistService.java:81 | The list `removeIf` leaves: the items whose id differs from the removed one, in their original order. Characterised by `RemoveItemsMembership`, `RemoveItemsUnchangedIff`, `RemoveItemsShorter` and `RemoveItemsAppend`. |
| `Domain.Wishlist.constructor` | src/main/java/com/jayatech/wishlist/domain/service/WishlistService.java:39-43 | The built wishlist has no id, the given user and creation instant, no `updatedAt` and an empty item list. Identical in WishListService.java:42-46. |
| `WishlistRules.RemoveItemsMembership` | src/main/java/com/jayatech/wishlist/domain/service/WishlistService.java:81 | An item is left after `removeIf` exactly when it was in the list and its id differs from the removed id. |
| `WishlistRules.RemoveItemsUnchangedIff` | src/main/java/com/jayatech/wishlist/domain/service/WishlistService.java:81-84 | `removeIf` leaves the list as it was exactly when no item has the id, which is when the service throws not-found. |
| `WishlistRules.RemoveItemsShorter` | src/main/java/com/jayatech/wishlist/domain/service/WishlistService.java:81 | Removal never lengthens the list. |
| `WishlistRules.RemoveItemsAppend` | src/main/java/com/jayatech/wishlist/domain/service/WishlistService.java:81 | Removal works element by element over a concatenation, so the kept items keep their original order. |
| `WishlistRules.RemoveKeepsDistinct` | src/main/java/com/jayatech/wishlist/domain/service/WishlistService.java:81 | Removing items keeps product ids pairwise distinct. |
| `WishlistRules.RemovePreservesWellFormed` | src/main/java/com/jayatech/wishlist/domain/service/WishlistService.java:79-85 | Removal keeps a list of at most 20 items with distinct product ids in that state. |
| `Repository.WishlistRepository.Save` | src/main/java/com/jayatech/wishlist/domain/repository/WishListRepository.java:8 | Save gives an id-less wishlist an id and writes its whole document under that id. A failed save writes nothing and yields `InternalError`. |
| `Repository.WishlistRepository.FindById` | src/main/java/com/jayatech/wishlist/domain/repository/WishListRepository.java:8 | Returns a fresh copy of the stored document exactly when the id is present. |
| `Repository.WishlistRepository.FindByUserId` | src/main/java/com/jayatech/wishlist/domain/repository/WishListRepository.java:9 | Returns nothing exactly when no stored wishlist belongs to the user; otherwise returns a fresh copy of one of that user's documents. |
| `LegacyWishListService.SaveWishList` | src/main/java/com/jayatech/wishlist/domain/service/WishListService.java:40-51 | With no duplicate check, stores a new wishlist for the user with an empty list, `createdAt` set and no `updatedAt`, or fails with `InternalError` and stores nothing. |
| `LegacyWishListService.FindByUserId` | src/main/java/com/jayatech/wishlist/domain/service/WishListService.java:35-38 | Get-or-create: returns the user's stored wishlist and changes nothing when one exists; otherwise behaves as `SaveWishList`. |
| `LegacyWishListService.FindByUserIdTwice` | src/main/java/com/jayatech/wishlist/domain/service/WishListService.java:35-38 | After a successful get-or-create, a second call for the same user succeeds and creates nothing. If the user already has a stored wishlist, the first call succeeds. If exactly one stored document belongs to the user, both calls return that document. When the first call created the wishlist, the second returns that same document. |
| `LegacyWishListService.FindById` | src/main/java/com/jayatech/wishlist/domain/service/WishListService.java:55-58 | Fails with `ResourceNotFound` exactly when the id is absent from the store; otherwise returns the stored document. Identical in WishlistService.java:52-55. |
| `LegacyWishListService.UpdateWishList` | src/main/java/com/jayatech/wishlist/domain/service/WishListService.java:60-74 | A failed validation returns its error and changes neither the wishlist nor the store. Otherwise it appends one item carrying the product unchanged and sets `updatedAt`. It then saves, or on a failed save returns `InternalError` with the in-memory change kept. A well-formed list stays well formed. |
| `LegacyWishListService.RemoveWishListProduct` | src/main/java/com/jayatech/wishlist/domain/service/WishListService.java:76-90 | A present list with no matching item gives `ResourceNotFound` and changes nothing, not even `updatedAt`. Otherwise it removes every matching item and keeps the rest in order; a null list stays null. Then it sets `updatedAt` and saves, giving `InternalError` with the change kept when the save fails. Identical in WishlistService.java:79-93. |
| `WishlistService.SaveWishList` | src/main/java/com/jayatech/wishlist/domain/service/WishlistService.java:34-48 | Fails with `WishlistFound` and stores nothing when the user already has a wishlist. Otherwise it stores a new one with an empty list, `createdAt` set and no `updatedAt`, or fails with `InternalError`. |
| `WishlistService.UpdateWishList` | src/main/java/com/jayatech/wishlist/domain/service/WishlistService.java:57-77 | Validation failure returns its error with nothing changed. Otherwise exactly one item is appended at the end. Its product id, name, description and price equal the DTO's. Earlier items are unchanged and keep their order, and `updatedAt` is set. The save outcome is as for the older revision. A well-formed list stays well formed. |
| `WishlistService.AddSameProductTwice` | src/main/java/com/jayatech/wishlist/domain/service/WishlistService.java:57-77 | When the first add of a product with an id passes validation, adding it again fails with `RegisteredProduct`. The list then holds exactly one more item than at the start, and the earlier items are untouched. |

## Left out

- An item whose product object itself is null is not modelled: `WishListItem.product` is always present. Both add paths build the item around a non-null product, but a stored reference to a product missing from the catalog would be read back as null (see the next line). A null product id is modelled (see `WishlistRules.ScanResult`).
- Repository.WishlistRepository.Save: item products are stored as embedded copies. The `@DBRef` on `WishListItem.product` is not modelled. With `@DBRef` the store writes a reference into the `products` collection, so saving an item whose product has a null id fails, and reloading a wishlist returns the catalog's current product for each item, or null when that product no longer exists. The model's save may succeed for such a document, and a reload returns the copy that was written.
- `Errors.MaxSize` stands for both `WishlistMaxSizeException` (current revision) and `WishListMaxSizeException` (older revision). Both carry the same message, and the model does not tell the two classes apart.
- WishlistService.SaveWishList: the model reads `findByUserId(userId) != null` (WishlistService.java:35) as "the store holds a wishlist for this user". That follows the nullable `Wishlist` return type declared in `WishlistRepository.java:8`. That interface is out of date: its `Long` parameter cannot take the `String` the service passes. The tests use `findByUserId` as returning `Optional<Wishlist>`. Under that type the result is never null, so the check always fires and `saveWishList` always throws `WishlistFoundException`, even for a new user. The model does not capture that behaviour.
- The services dereference the wishlist in `updateWishList`, `removeWishListProduct` and `validateProduct`. A null wishlist there would throw a `NullPointerException`. The model takes a non-null `Wishlist`, since every caller passes one it has just loaded.
- Item ids come from `UUID.randomUUID()` and are a parameter here. The model does not assume or prove that they are unique within a wishlist.
- The document id the store assigns is an arbitrary string, and its uniqueness is not modelled. A colliding id overwrites another document.
- Store reads (`findById`, `findByUserId`) cannot fail in the model. When several documents share a user id, `findByUserId` returns any one of them; the thrown exception Spring Data would give for that case is not modelled.
- `InternalError` does not carry the message and cause of the store's exception, and logging is not modelled.
- Lost updates and create races between concurrent requests are not modelled, because the core has no in-process concurrency.
- Controllers, OpenAPI interfaces, the exception-to-HTTP mapping, the product catalog service, the item repository, seed data and application bootstrap are not modelled. They are routing, plumbing or not part of this model.
- Prices (`BigDecimal`) and instants are opaque values that are only copied.
