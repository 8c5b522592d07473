/** The exceptions the wishlist services throw, as one tagged error kind. */
module Errors {

  datatype Error =
    | ResourceNotFound(message: string)   // ResourceNotFoundException
    | WishlistFound(message: string)      // WishlistFoundException: a wishlist already exists for the user
    | RegisteredProduct(message: string)  // RegisteredProductException: the product is already in the wishlist
    | MaxSize(message: string)            // WishlistMaxSizeException / WishListMaxSizeException
    | InternalError                       // InternalErrorException wrapping a failed store write
    | NullPointer                         // NullPointerException: a null item list, or an item whose product has a null id

  /** `Wishlist.class.getName() + ".not.found"` */
  const WishlistNotFoundMessage := "com.jayatech.wishlist.domain.model.Wishlist.not.found"

  /** `Product.class.getName() + ".registered"` */
  const RegisteredProductMessage := "com.jayatech.wishlist.domain.model.Product.registered"

  /** `Wishlist.class.getName() + ".maximum.size"` */
  const WishlistMaxSizeMessage := "com.jayatech.wishlist.domain.model.Wishlist.maximum.size"

  /** `Wishlist.class.getName() + ".found"` */
  const WishlistFoundMessage := "com.jayatech.wishlist.domain.model.Wishlist.found"
}
