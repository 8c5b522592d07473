/** The answer to "is this product in the wishlist?". */
module ProductCheckResponses {
  import opened Wrappers
  import opened Domain

  datatype ProductCheckResponse = ProductCheckResponse(
    product: Option<Product>,
    hasProductInWishlist: bool,
    message: string)

  /** `new ProductCheckResponse()`: the product is not in the wishlist, and no product is carried. */
  function NotFound(): (r: ProductCheckResponse)
    ensures !r.hasProductInWishlist
    ensures r.message == "product.not.found"
    ensures r.product == None
  {
    ProductCheckResponse(None, false, "product.not.found")
  }

  /** `new ProductCheckResponse(product)`: the product is in the wishlist and is carried back unchanged. */
  function Found(product: Product): (r: ProductCheckResponse)
    ensures r.hasProductInWishlist
    ensures r.message == "product.found"
    ensures r.product == Some(product)
  {
    ProductCheckResponse(Some(product), true, "product.found")
  }
}
