/**
 * The older revision of the wishlist service (`WishListService`). Its find-by-id,
 * removal and the read-only checks are the same code as the current revision's,
 * which reuses them from here.
 */
module LegacyWishListService {
  import opened Wrappers
  import opened Domain
  import opened Errors
  import opened WishlistRules
  import opened Repository

  /** `saveWishList(userId)`: always stores a new, empty wishlist; there is no duplicate check. */
  method SaveWishList(repository: WishlistRepository, userId: string, now: Instant) returns (r: Result<Wishlist, Error>)
    modifies repository
    ensures r.Failure? ==> r.error == InternalError && repository.documents == old(repository.documents)
    ensures r.Success? ==> fresh(r.value) && r.value.id.Some?
                           && r.value.userId == userId && r.value.createdAt == now
                           && r.value.updatedAt == None && r.value.wishListItems == Some([])
                           && repository.documents
                              == old(repository.documents)[r.value.id.value := r.value.Snapshot()]
  {
    var wishlist := new Wishlist(userId, now);
    r := repository.Save(wishlist);
  }

  /** `findByUserId(userId)`: get-or-create. */
  method FindByUserId(repository: WishlistRepository, userId: string, now: Instant) returns (r: Result<Wishlist, Error>)
    modifies repository
    ensures old(repository.HasUser(userId)) ==>
              repository.documents == old(repository.documents)
              && r.Success? && fresh(r.value) && r.value.userId == userId && r.value.id.Some?
              && r.value.id.value in repository.documents
              && repository.documents[r.value.id.value] == r.value.Snapshot()
    ensures !old(repository.HasUser(userId)) && r.Failure? ==>
              r.error == InternalError && repository.documents == old(repository.documents)
    ensures !old(repository.HasUser(userId)) && r.Success? ==>
              fresh(r.value) && r.value.id.Some?
              && r.value.userId == userId && r.value.createdAt == now
              && r.value.updatedAt == None && r.value.wishListItems == Some([])
              && repository.documents
                 == old(repository.documents)[r.value.id.value := r.value.Snapshot()]
  {
    var existing := repository.FindByUserId(userId);
    if existing.Some? {
      return Success(existing.value);
    }
    r := SaveWishList(repository, userId, now);
  }

  /** At most one stored document belongs to `userId`. */
  ghost predicate UniqueUser(documents: map<string, WishlistDoc>, userId: string)
  {
    forall k1, k2 ::
      k1 in documents && k2 in documents && documents[k1].userId == userId && documents[k2].userId == userId
      ==> k1 == k2
  }

  /** Two get-or-create lookups for one user: the second finds what the first made and creates nothing. */
  method FindByUserIdTwice(repository: WishlistRepository, userId: string, now1: Instant, now2: Instant)
    returns (first: Result<Wishlist, Error>, second: Result<Wishlist, Error>)
    modifies repository
    ensures first.Success? ==> first.value.id.Some? && first.value.userId == userId
                               && second.Success? && second.value.userId == userId && second.value.id.Some?
    ensures first.Success? && old(repository.HasUser(userId)) ==> repository.documents == old(repository.documents)
    ensures old(repository.HasUser(userId)) ==> first.Success?
    ensures old(repository.HasUser(userId)) && UniqueUser(old(repository.documents), userId) ==>
              first.Success? && second.Success? && second.value.id == first.value.id
              && second.value.Snapshot() == first.value.Snapshot()
    ensures first.Success? && !old(repository.HasUser(userId)) ==>
              second.value.id == first.value.id
              && second.value.Snapshot() == first.value.Snapshot()
              && repository.documents
                 == old(repository.documents)[first.value.id.value := first.value.Snapshot()]
  {
    first := FindByUserId(repository, userId, now1);
    if first.Success? {
      assert repository.documents[first.value.id.value].userId == userId;
    }
    second := FindByUserId(repository, userId, now2);
  }

  /** `findById(id)`: the stored wishlist, or `ResourceNotFound` exactly when no document has that id. */
  method FindById(repository: WishlistRepository, id: string) returns (r: Result<Wishlist, Error>)
    ensures r.Failure? <==> id !in repository.documents
    ensures r.Failure? ==> r.error == ResourceNotFound(WishlistNotFoundMessage)
    ensures r.Success? ==> fresh(r.value) && r.value.id == Some(id) && r.value.Snapshot() == repository.documents[id]
  {
    var found := repository.FindById(id);
    if found.None? {
      return Failure(ResourceNotFound(WishlistNotFoundMessage));
    }
    return Success(found.value);
  }

  /**
   * `updateWishList(wishlist, product)`: validates, then appends an item carrying
   * `product` unchanged, stamps `updatedAt` and saves. A failed save leaves the
   * in-memory change in place.
   */
  method UpdateWishList(repository: WishlistRepository, wishlist: Wishlist, product: Product,
                        itemId: string, itemCreatedAt: Instant, updatedAt: Instant)
    returns (r: Result<Wishlist, Error>)
    modifies repository, wishlist
    ensures Validate(old(wishlist.wishListItems), product.id).Fail? ==>
              r == Failure(Validate(old(wishlist.wishListItems), product.id).error)
              && unchanged(wishlist) && repository.documents == old(repository.documents)
    ensures Validate(old(wishlist.wishListItems), product.id).Pass? ==>
              wishlist.wishListItems
                == Some(old(wishlist.wishListItems).value + [WishListItem(itemId, itemCreatedAt, product)])
              && wishlist.updatedAt == Some(updatedAt)
              && wishlist.userId == old(wishlist.userId) && wishlist.createdAt == old(wishlist.createdAt)
              && (old(wishlist.id).Some? ==> wishlist.id == old(wishlist.id))
    ensures old(wishlist.wishListItems).Some? && WellFormed(old(wishlist.wishListItems).value) ==>
              wishlist.wishListItems.Some? && WellFormed(wishlist.wishListItems.value)
    ensures Validate(old(wishlist.wishListItems), product.id).Pass? && r.Success? ==>
              r.value == wishlist && wishlist.id.Some?
              && repository.documents
                 == old(repository.documents)[wishlist.id.value := wishlist.Snapshot()]
    ensures Validate(old(wishlist.wishListItems), product.id).Pass? && r.Failure? ==>
              r.error == InternalError && repository.documents == old(repository.documents)
  {
    var valid := ValidateProduct(wishlist, product.id);
    if valid.Fail? {
      return Failure(valid.error);
    }
    var item := WishListItem(itemId, itemCreatedAt, product);
    if WellFormed(wishlist.wishListItems.value) {
      AddPreservesWellFormed(wishlist.wishListItems.value, item);
    }
    wishlist.wishListItems := Some(wishlist.wishListItems.value + [item]);
    wishlist.updatedAt := Some(updatedAt);
    r := repository.Save(wishlist);
  }

  /**
   * `removeWishListProduct(wishlist, wishListItemId)`: removes every item with that
   * id. When the list exists but holds no such item, it throws `ResourceNotFound`
   * and neither stamps nor saves; a null list is stamped and saved as it is.
   */
  method RemoveWishListProduct(repository: WishlistRepository, wishlist: Wishlist, wishListItemId: string, now: Instant)
    returns (r: Outcome<Error>)
    modifies repository, wishlist
    ensures old(wishlist.wishListItems).Some? && !AnyItemWithId(old(wishlist.wishListItems).value, wishListItemId) ==>
              r == Fail(ResourceNotFound(RegisteredProductMessage))
              && unchanged(wishlist) && repository.documents == old(repository.documents)
    ensures old(wishlist.wishListItems).None? ==> wishlist.wishListItems == None && wishlist.updatedAt == Some(now)
    ensures old(wishlist.wishListItems).Some? && AnyItemWithId(old(wishlist.wishListItems).value, wishListItemId) ==>
              wishlist.wishListItems == Some(RemoveItems(old(wishlist.wishListItems).value, wishListItemId))
              && wishlist.updatedAt == Some(now)
    ensures old(wishlist.wishListItems).Some? && WellFormed(old(wishlist.wishListItems).value) ==>
              wishlist.wishListItems.Some? && WellFormed(wishlist.wishListItems.value)
    ensures !(old(wishlist.wishListItems).Some? && !AnyItemWithId(old(wishlist.wishListItems).value, wishListItemId)) ==>
              wishlist.userId == old(wishlist.userId) && wishlist.createdAt == old(wishlist.createdAt)
              && (old(wishlist.id).Some? ==> wishlist.id == old(wishlist.id))
              && (r.Pass? ==> wishlist.id.Some? && repository.documents
                               == old(repository.documents)[wishlist.id.value := wishlist.Snapshot()])
              && (r.Fail? ==> r.error == InternalError && repository.documents == old(repository.documents))
  {
    if wishlist.wishListItems.Some? {
      var items := wishlist.wishListItems.value;
      var kept := RemoveItems(items, wishListItemId);
      RemoveItemsUnchangedIff(items, wishListItemId);
      if WellFormed(items) {
        RemovePreservesWellFormed(items, wishListItemId);
      }
      var hasProduct := kept != items;  // what `removeIf` returns: whether anything was removed
      if !hasProduct {
        return Fail(ResourceNotFound(RegisteredProductMessage));
      }
      wishlist.wishListItems := Some(kept);
    }
    wishlist.updatedAt := Some(now);
    var saved := repository.Save(wishlist);
    r := if saved.Success? then Pass else Fail(saved.error);
  }
}
