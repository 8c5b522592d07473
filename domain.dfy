/** The entities the wishlist services read and write. */
module Domain {
  import opened Wrappers

  /** A `java.time.Instant`; the services only store instants, they never compare them. */
  datatype Instant = Instant(epochSecond: int, nano: nat)

  /** A `java.math.BigDecimal` price (unscaled value and scale); copied, never computed with. */
  datatype Decimal = Decimal(unscaledValue: int, scale: int)

  /** A catalog product. Every field is nullable in the source. */
  datatype Product = Product(
    id: Option<string>,
    name: Option<string>,
    price: Option<Decimal>,
    description: Option<string>)

  /** The product built by `new Product()`: every field null. */
  const EmptyProduct := Product(None, None, None, None)

  /** The request body naming the product to add to a wishlist. */
  datatype ProductDTO = ProductDTO(
    id: Option<string>,
    name: Option<string>,
    price: Option<Decimal>,
    description: Option<string>)

  /** An entry of a wishlist: a generated id, its creation instant and an embedded copy of the product. */
  datatype WishListItem = WishListItem(id: string, createdAt: Instant, product: Product)

  /** A wishlist as the document store keeps it; the store's key is its id. */
  datatype WishlistDoc = WishlistDoc(
    userId: string,
    createdAt: Instant,
    updatedAt: Option<Instant>,
    wishListItems: Option<seq<WishListItem>>)

  /** A wishlist held in memory; the services update its item list and `updatedAt` in place. */
  class Wishlist {
    var id: Option<string>
    var userId: string
    var createdAt: Instant
    var updatedAt: Option<Instant>
    var wishListItems: Option<seq<WishListItem>>

    /** `Wishlist.builder().userId(..).createdAt(..).wishListItems(new ArrayList<>()).build()` */
    constructor (userId: string, createdAt: Instant)
      ensures this.id == None && this.userId == userId && this.createdAt == createdAt
      ensures updatedAt == None && wishListItems == Some([])
    {
      this.id := None;
      this.userId := userId;
      this.createdAt := createdAt;
      this.updatedAt := None;
      this.wishListItems := Some([]);
    }

    /** The object the store materialises when it reads document `doc` stored under `key`. */
    constructor Load(key: string, doc: WishlistDoc)
      ensures id == Some(key) && Snapshot() == doc
    {
      this.id := Some(key);
      this.userId := doc.userId;
      this.createdAt := doc.createdAt;
      this.updatedAt := doc.updatedAt;
      this.wishListItems := doc.wishListItems;
    }

    /** The document that saving this object writes. */
    function Snapshot(): WishlistDoc
      reads this
    {
      WishlistDoc(userId, createdAt, updatedAt, wishListItems)
    }
  }
}
