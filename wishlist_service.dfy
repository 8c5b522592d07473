/**
 * The current revision of the wishlist service (`WishlistService`). It differs from
 * the older one in two places: creating a wishlist first refuses a user who already
 * has one, and an item is added from a `ProductDTO` whose fields are copied into a
 * new `Product`. Finding by id, removal and the checks are the older revision's code.
 */
module WishlistService {
  import opened Wrappers
  import opened Domain
  import opened Errors
  import opened WishlistRules
  import opened Repository
  import LegacyWishListService

  /** `saveWishList(userId)`: refuses a second wishlist for a user, else stores a new, empty one. */
  method SaveWishList(repository: WishlistRepository, userId: string, now: Instant) returns (r: Result<Wishlist, Error>)
    modifies repository
    ensures old(repository.HasUser(userId)) ==>
              r == Failure(WishlistFound(WishlistFoundMessage)) && repository.documents == old(repository.documents)
    ensures !old(repository.HasUser(userId)) && r.Failure? ==>
              r.error == InternalError && repository.documents == old(repository.documents)
    ensures !old(repository.HasUser(userId)) && r.Success? ==>
              fresh(r.value) && r.value.id.Some?
              && r.value.userId == userId && r.value.createdAt == now
              && r.value.updatedAt == None && r.value.wishListItems == Some([])
              && repository.documents
                 == old(repository.documents)[r.value.id.value := r.value.Snapshot()]
  {
    var existing := repository.FindByUserId(userId);
    if existing.Some? {
      return Failure(WishlistFound(WishlistFoundMessage));
    }
    r := LegacyWishListService.SaveWishList(repository, userId, now);
  }

  /**
   * `updateWishList(wishlist, productDTO)`: copies the DTO into a new product, then
   * validates, appends an item carrying that product, stamps `updatedAt` and saves.
   */
  method UpdateWishList(repository: WishlistRepository, wishlist: Wishlist, productDTO: ProductDTO,
                        itemId: string, itemCreatedAt: Instant, updatedAt: Instant)
    returns (r: Result<Wishlist, Error>)
    modifies repository, wishlist
    ensures Validate(old(wishlist.wishListItems), productDTO.id).Fail? ==>
              r == Failure(Validate(old(wishlist.wishListItems), productDTO.id).error)
              && unchanged(wishlist) && repository.documents == old(repository.documents)
    ensures Validate(old(wishlist.wishListItems), productDTO.id).Pass? ==>
              var before := old(wishlist.wishListItems).value;
              && wishlist.wishListItems.Some?
              && var after := wishlist.wishListItems.value;
              && |after| == |before| + 1 && after[..|before|] == before
              && after[|before|].id == itemId && after[|before|].createdAt == itemCreatedAt
              && after[|before|].product.id == productDTO.id
              && after[|before|].product.name == productDTO.name
              && after[|before|].product.description == productDTO.description
              && after[|before|].product.price == productDTO.price
              && wishlist.updatedAt == Some(updatedAt)
              && wishlist.userId == old(wishlist.userId) && wishlist.createdAt == old(wishlist.createdAt)
              && (old(wishlist.id).Some? ==> wishlist.id == old(wishlist.id))
    ensures old(wishlist.wishListItems).Some? && WellFormed(old(wishlist.wishListItems).value) ==>
              wishlist.wishListItems.Some? && WellFormed(wishlist.wishListItems.value)
    ensures Validate(old(wishlist.wishListItems), productDTO.id).Pass? && r.Success? ==>
              r.value == wishlist && wishlist.id.Some?
              && repository.documents
                 == old(repository.documents)[wishlist.id.value := wishlist.Snapshot()]
    ensures Validate(old(wishlist.wishListItems), productDTO.id).Pass? && r.Failure? ==>
              r.error == InternalError && repository.documents == old(repository.documents)
  {
    var product := Product(productDTO.id, productDTO.name, productDTO.price, productDTO.description);
    r := LegacyWishListService.UpdateWishList(repository, wishlist, product, itemId, itemCreatedAt, updatedAt);
  }

  /** Adding the same product twice: the second add fails with `RegisteredProduct` and adds nothing. */
  method AddSameProductTwice(repository: WishlistRepository, wishlist: Wishlist, productDTO: ProductDTO,
                  itemId1: string, itemId2: string, now1: Instant, now2: Instant)
    returns (first: Result<Wishlist, Error>, second: Result<Wishlist, Error>)
    modifies repository, wishlist
    ensures productDTO.id.Some? && Validate(old(wishlist.wishListItems), productDTO.id).Pass? ==>
              second == Failure(RegisteredProduct(RegisteredProductMessage))
              && wishlist.wishListItems.Some?
              && |wishlist.wishListItems.value| == |old(wishlist.wishListItems).value| + 1
              && wishlist.wishListItems.value[..|old(wishlist.wishListItems).value|] == old(wishlist.wishListItems).value
  {
    first := UpdateWishList(repository, wishlist, productDTO, itemId1, now1, now1);
    if productDTO.id.Some? && Validate(old(wishlist.wishListItems), productDTO.id).Pass? {
      var items := wishlist.wishListItems.value;
      assert Matches(items[|items| - 1], productDTO.id);
    }
    second := UpdateWishList(repository, wishlist, productDTO, itemId2, now2, now2);
  }
}
