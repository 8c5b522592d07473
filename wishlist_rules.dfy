/**
 * The decision logic both service revisions share: the product scan, the validation
 * run before an item is appended (identical except for the class of the max-size
 * exception), the item removal filter, and the invariants a wishlist keeps when every
 * change goes through them.
 */
module WishlistRules {
  import opened Wrappers
  import opened Domain
  import opened Errors
  import opened ProductCheckResponses

  /** `WISHLIST_MAX_SIZE` */
  const WishlistMaxSize: nat := 20

  // ---------------------------------------------------------------------------
  // The product scan

  /** `item.getProduct().getId().equals(productId)` for an item whose product has an id: a null query matches nothing. */
  predicate Matches(item: WishListItem, productId: Option<string>)
  {
    item.product.id.Some? && item.product.id == productId
  }

  /** Every item's product has an id, so `getId().equals(..)` cannot throw during the scan. */
  predicate AllIdsPresent(items: seq<WishListItem>)
  {
    forall i :: 0 <= i < |items| ==> items[i].product.id.Some?
  }

  ghost predicate AnyMatch(items: seq<WishListItem>, productId: Option<string>)
  {
    exists i :: 0 <= i < |items| && Matches(items[i], productId)
  }

  /** Item `i` matches and no later item does. */
  ghost predicate IsLastMatch(items: seq<WishListItem>, productId: Option<string>, i: int)
  {
    0 <= i < |items| && Matches(items[i], productId)
    && forall j :: i < j < |items| ==> !Matches(items[j], productId)
  }

  /** What the scan loop has assigned after visiting `items`: the product of the last match, if any. */
  function LastMatch(items: seq<WishListItem>, productId: Option<string>): Option<Product>
  {
    if |items| == 0 then None
    else if Matches(items[|items| - 1], productId) then Some(items[|items| - 1].product)
    else LastMatch(items[..|items| - 1], productId)
  }

  function OrEmpty(found: Option<Product>): Product
  {
    if found.Some? then found.value else EmptyProduct
  }

  /**
   * What `hasProductInWishlist` yields for a non-null wishlist whose item list is `items`:
   * a `NullPointerException` once the loop reaches an item whose product has no id,
   * otherwise the product it last assigned.
   */
  function ScanResult(items: Option<seq<WishListItem>>, productId: Option<string>): Result<Product, Error>
  {
    if items.None? then Success(EmptyProduct)
    else if !AllIdsPresent(items.value) then Failure(NullPointer)
    else Success(OrEmpty(LastMatch(items.value, productId)))
  }

  /** The scan finds nothing exactly when no item matches. */
  lemma {:induction false} LastMatchNoneIff(items: seq<WishListItem>, productId: Option<string>)
    ensures LastMatch(items, productId).None? <==> !AnyMatch(items, productId)
  {
    if |items| > 0 {
      var init := items[..|items| - 1];
      LastMatchNoneIff(init, productId);
      if !Matches(items[|items| - 1], productId) && AnyMatch(items, productId) {
        var i :| 0 <= i < |items| && Matches(items[i], productId);
        assert init[i] == items[i];
      }
    }
  }

  /** When the scan finds a product, it is the product of the last matching item. */
  lemma {:induction false} LastMatchIsLast(items: seq<WishListItem>, productId: Option<string>)
    requires LastMatch(items, productId).Some?
    ensures exists i :: IsLastMatch(items, productId, i) && LastMatch(items, productId) == Some(items[i].product)
  {
    var n := |items|;
    if Matches(items[n - 1], productId) {
      assert IsLastMatch(items, productId, n - 1);
    } else {
      var init := items[..n - 1];
      LastMatchIsLast(init, productId);
      var i :| IsLastMatch(init, productId, i) && LastMatch(init, productId) == Some(init[i].product);
      assert IsLastMatch(items, productId, i);
    }
  }

  /** A found product carries the id that was searched for. */
  lemma {:induction false} LastMatchHasQueriedId(items: seq<WishListItem>, productId: Option<string>)
    requires LastMatch(items, productId).Some?
    ensures productId.Some? && LastMatch(items, productId).value.id == productId
  {
    if !Matches(items[|items| - 1], productId) {
      LastMatchHasQueriedId(items[..|items| - 1], productId);
    }
  }

  /**
   * `hasProductInWishlist` throws exactly when the list holds an item whose product has
   * no id; otherwise it returns a product with an id exactly when some item matches.
   */
  lemma ScanFoundIff(items: Option<seq<WishListItem>>, productId: Option<string>)
    ensures ScanResult(items, productId).Failure?
            <==> items.Some? && exists i :: 0 <= i < |items.value| && items.value[i].product.id.None?
    ensures ScanResult(items, productId).Failure? ==> ScanResult(items, productId).error == NullPointer
    ensures ScanResult(items, productId).Success? && ScanResult(items, productId).value.id.Some?
            <==> items.Some? && AllIdsPresent(items.value) && AnyMatch(items.value, productId)
    ensures ScanResult(items, productId).Success? && ScanResult(items, productId).value.id.Some? ==>
              ScanResult(items, productId).value.id == productId
  {
    if items.Some? {
      LastMatchNoneIff(items.value, productId);
      if LastMatch(items.value, productId).Some? {
        LastMatchHasQueriedId(items.value, productId);
      }
    }
  }

  /** `checkProduct`'s decision on the scan result. */
  function ResponseFor(product: Product): (r: ProductCheckResponse)
    ensures r.hasProductInWishlist <==> product.id.Some?
    ensures r.hasProductInWishlist ==> r == Found(product)
    ensures !r.hasProductInWishlist ==> r == NotFound()
  {
    if product.id.Some? then Found(product) else NotFound()
  }

  // ---------------------------------------------------------------------------
  // Validation before an item is appended

  /**
   * `validateProduct`: the scan runs first (and throws on an item whose product has no
   * id), then the duplicate check, then the size check (an equality test).
   */
  function Validate(items: Option<seq<WishListItem>>, productId: Option<string>): (r: Outcome<Error>)
    ensures r == Fail(RegisteredProduct(RegisteredProductMessage))
            <==> items.Some? && AllIdsPresent(items.value) && AnyMatch(items.value, productId)
    ensures r == Fail(NullPointer) <==> items.None? || !AllIdsPresent(items.value)
    ensures r == Fail(MaxSize(WishlistMaxSizeMessage))
            <==> items.Some? && AllIdsPresent(items.value) && !AnyMatch(items.value, productId)
                 && |items.value| == WishlistMaxSize
    ensures r == Pass
            <==> items.Some? && AllIdsPresent(items.value) && !AnyMatch(items.value, productId)
                 && |items.value| != WishlistMaxSize
  {
    ScanFoundIff(items, productId);
    var scanned := ScanResult(items, productId);
    if scanned.Failure? then Fail(scanned.error)
    else if scanned.value.id.Some? then Fail(RegisteredProduct(RegisteredProductMessage))
    else if items.None? then Fail(NullPointer)
    else if |items.value| == WishlistMaxSize then Fail(MaxSize(WishlistMaxSizeMessage))
    else Pass
  }

  // ---------------------------------------------------------------------------
  // Removal of items by item id

  /** What `removeIf(item -> item.getId().equals(wishListItemId))` leaves in the list. */
  function RemoveItems(items: seq<WishListItem>, wishListItemId: string): seq<WishListItem>
  {
    if |items| == 0 then []
    else (if items[0].id == wishListItemId then [] else [items[0]]) + RemoveItems(items[1..], wishListItemId)
  }

  ghost predicate AnyItemWithId(items: seq<WishListItem>, wishListItemId: string)
  {
    exists i :: 0 <= i < |items| && items[i].id == wishListItemId
  }

  /** The items left are exactly those whose id differs. */
  lemma {:induction false} RemoveItemsMembership(items: seq<WishListItem>, wishListItemId: string, x: WishListItem)
    ensures x in RemoveItems(items, wishListItemId) <==> x in items && x.id != wishListItemId
  {
    if |items| > 0 {
      RemoveItemsMembership(items[1..], wishListItemId, x);
      assert items == [items[0]] + items[1..];
    }
  }

  /** `removeIf` reports a removal exactly when some item had the id; otherwise the list is untouched. */
  lemma {:induction false} RemoveItemsUnchangedIff(items: seq<WishListItem>, wishListItemId: string)
    ensures RemoveItems(items, wishListItemId) == items <==> !AnyItemWithId(items, wishListItemId)
  {
    if |items| > 0 {
      var tail := items[1..];
      RemoveItemsUnchangedIff(tail, wishListItemId);
      RemoveItemsShorter(tail, wishListItemId);
      if items[0].id != wishListItemId && AnyItemWithId(items, wishListItemId) {
        var i :| 0 <= i < |items| && items[i].id == wishListItemId;
        assert tail[i - 1] == items[i];
      }
      if !AnyItemWithId(items, wishListItemId) {
        assert items == [items[0]] + tail;
        assert !AnyItemWithId(tail, wishListItemId) by {
          forall i | 0 <= i < |tail| ensures tail[i].id != wishListItemId {
            assert tail[i] == items[i + 1];
          }
        }
      }
    }
  }

  lemma {:induction false} RemoveItemsShorter(items: seq<WishListItem>, wishListItemId: string)
    ensures |RemoveItems(items, wishListItemId)| <= |items|
  {
    if |items| > 0 {
      RemoveItemsShorter(items[1..], wishListItemId);
    }
  }

  /** Removal works item by item: the kept items stay in their original order. */
  lemma {:induction false} RemoveItemsAppend(a: seq<WishListItem>, b: seq<WishListItem>, wishListItemId: string)
    ensures RemoveItems(a + b, wishListItemId) == RemoveItems(a, wishListItemId) + RemoveItems(b, wishListItemId)
  {
    if |a| > 0 {
      assert (a + b)[1..] == a[1..] + b;
      RemoveItemsAppend(a[1..], b, wishListItemId);
    } else {
      assert a + b == b;
    }
  }

  // ---------------------------------------------------------------------------
  // Invariants kept by validated changes

  /** No two items embed products with the same (present) id. */
  ghost predicate DistinctProductIds(items: seq<WishListItem>)
  {
    forall i, j :: 0 <= i < j < |items| && items[i].product.id.Some? ==> items[i].product.id != items[j].product.id
  }

  /** What a wishlist whose every change was validated looks like. */
  ghost predicate WellFormed(items: seq<WishListItem>)
  {
    |items| <= WishlistMaxSize && DistinctProductIds(items)
  }

  /** Appending an item that passed validation keeps the wishlist well formed. */
  lemma AddPreservesWellFormed(items: seq<WishListItem>, item: WishListItem)
    requires WellFormed(items)
    requires Validate(Some(items), item.product.id) == Pass
    ensures WellFormed(items + [item])
  {
    var s := items + [item];
    forall i, j | 0 <= i < j < |s| && s[i].product.id.Some?
      ensures s[i].product.id != s[j].product.id
    {
      if j == |items| {
        assert !Matches(items[i], item.product.id);
      }
    }
  }

  /**
   * A product without an id passes validation, but once it is in the list every later
   * scan of that list throws, so no further product can be added.
   */
  lemma IdlessAddBlocksLaterAdds(items: seq<WishListItem>, item: WishListItem, productId: Option<string>)
    requires Validate(Some(items), item.product.id) == Pass
    requires item.product.id.None?
    ensures Validate(Some(items + [item]), productId) == Fail(NullPointer)
  {
    var s := items + [item];
    assert s[|items|].product.id.None?;
  }

  /** Removing items keeps the wishlist well formed. */
  lemma {:induction false} RemovePreservesWellFormed(items: seq<WishListItem>, wishListItemId: string)
    requires WellFormed(items)
    ensures WellFormed(RemoveItems(items, wishListItemId))
  {
    RemoveItemsShorter(items, wishListItemId);
    RemoveKeepsDistinct(items, wishListItemId);
  }

  lemma {:induction false} RemoveKeepsDistinct(items: seq<WishListItem>, wishListItemId: string)
    requires DistinctProductIds(items)
    ensures DistinctProductIds(RemoveItems(items, wishListItemId))
  {
    if |items| > 0 {
      var tail := items[1..];
      assert DistinctProductIds(tail) by {
        forall i, j | 0 <= i < j < |tail| && tail[i].product.id.Some?
          ensures tail[i].product.id != tail[j].product.id
        {
          assert tail[i] == items[i + 1] && tail[j] == items[j + 1];
        }
      }
      RemoveKeepsDistinct(tail, wishListItemId);
      var rest := RemoveItems(tail, wishListItemId);
      if items[0].id != wishListItemId {
        var s := [items[0]] + rest;
        forall i, j | 0 <= i < j < |s| && s[i].product.id.Some?
          ensures s[i].product.id != s[j].product.id
        {
          if i == 0 {
            assert s[j] == rest[j - 1];
            RemoveItemsMembership(tail, wishListItemId, s[j]);
            var k :| 0 <= k < |tail| && tail[k] == s[j];
            assert items[k + 1] == s[j];
          } else {
            assert s[i] == rest[i - 1] && s[j] == rest[j - 1];
          }
        }
      }
    }
  }

  /** Under the invariant, the scan finds the one item carrying that product id. */
  lemma ScanFindsTheOnlyMatch(items: seq<WishListItem>, i: int)
    requires DistinctProductIds(items)
    requires 0 <= i < |items| && items[i].product.id.Some?
    ensures LastMatch(items, items[i].product.id) == Some(items[i].product)
  {
    var q := items[i].product.id;
    assert Matches(items[i], q);
    LastMatchNoneIff(items, q);
    LastMatchIsLast(items, q);
    var k :| IsLastMatch(items, q, k) && LastMatch(items, q) == Some(items[k].product);
    assert k == i;
  }

  /** The size check is an equality test: a list already past the bound is not stopped by it. */
  lemma CapacityCheckIsEquality(items: seq<WishListItem>, productId: Option<string>)
    requires |items| > WishlistMaxSize && AllIdsPresent(items) && !AnyMatch(items, productId)
    ensures Validate(Some(items), productId) == Pass
  {
  }

  // ---------------------------------------------------------------------------
  // The read-only service operations, identical in both revisions

  /**
   * `hasProductInWishlist`: a linear scan in which each match overwrites the previous
   * one, and which throws at the first item whose product has no id.
   */
  method HasProductInWishlist(wishlist: Wishlist?, productId: Option<string>) returns (r: Result<Product, Error>)
    ensures wishlist == null ==> r == Success(EmptyProduct)
    ensures wishlist != null ==> r == ScanResult(wishlist.wishListItems, productId)
  {
    var product := EmptyProduct;
    if wishlist != null && wishlist.wishListItems.Some? {
      var items := wishlist.wishListItems.value;
      for i := 0 to |items|
        invariant AllIdsPresent(items[..i])
        invariant product == OrEmpty(LastMatch(items[..i], productId))
      {
        if items[i].product.id.None? {
          return Failure(NullPointer);
        }
        assert items[..i + 1][..i] == items[..i];
        if Matches(items[i], productId) {
          product := items[i].product;
        }
      }
      assert items[..|items|] == items;
    }
    return Success(product);
  }

  /** `validateProduct`: throws when the scan throws, the product is already listed or the list is full. */
  method ValidateProduct(wishlist: Wishlist, productId: Option<string>) returns (r: Outcome<Error>)
    ensures r == Validate(wishlist.wishListItems, productId)
  {
    var hasProduct := HasProductInWishlist(wishlist, productId);
    if hasProduct.Failure? {
      return Fail(hasProduct.error);
    }
    if hasProduct.value.id.Some? {
      return Fail(RegisteredProduct(RegisteredProductMessage));
    }
    if wishlist.wishListItems.None? {
      return Fail(NullPointer);
    }
    if |wishlist.wishListItems.value| == WishlistMaxSize {
      return Fail(MaxSize(WishlistMaxSizeMessage));
    }
    return Pass;
  }

  /**
   * `checkProduct`: throws when the scan throws; otherwise found exactly when some item
   * carries the product id.
   */
  method CheckProduct(wishlist: Wishlist?, productId: Option<string>) returns (r: Result<ProductCheckResponse, Error>)
    ensures r.Failure?
            <==> wishlist != null && wishlist.wishListItems.Some? && !AllIdsPresent(wishlist.wishListItems.value)
    ensures r.Failure? ==> r.error == NullPointer
    ensures r.Success? && r.value.hasProductInWishlist
            <==> wishlist != null && wishlist.wishListItems.Some? && AllIdsPresent(wishlist.wishListItems.value)
                 && AnyMatch(wishlist.wishListItems.value, productId)
    ensures r.Success? && r.value.hasProductInWishlist ==>
              r.value == Found(ScanResult(wishlist.wishListItems, productId).value)
              && r.value.product.value.id == productId
    ensures r.Success? && !r.value.hasProductInWishlist ==> r.value == NotFound()
  {
    var product := HasProductInWishlist(wishlist, productId);
    if wishlist != null {
      ScanFoundIff(wishlist.wishListItems, productId);
    }
    if product.Failure? {
      return Failure(product.error);
    }
    return Success(ResponseFor(product.value));
  }
}
