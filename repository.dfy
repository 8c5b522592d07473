/**
 * The document store behind the services (a Spring Data MongoDB repository),
 * modelled as a map from document id to the stored wishlist document.
 */
module Repository {
  import opened Wrappers
  import opened Domain
  import opened Errors

  class WishlistRepository {
    var documents: map<string, WishlistDoc>

    constructor (documents: map<string, WishlistDoc>)
      ensures this.documents == documents
    {
      this.documents := documents;
    }

    /** Some stored wishlist belongs to `userId`. */
    ghost predicate HasUser(userId: string)
      reads this
    {
      exists key :: key in documents && documents[key].userId == userId
    }

    /**
     * `save(wishlist)`: gives an id-less wishlist an id chosen by the store, then
     * writes the whole document under that id. The write may fail, in which case
     * nothing is written and the service sees an `InternalError`.
     */
    method Save(w: Wishlist) returns (r: Result<Wishlist, Error>)
      modifies this, w`id
      ensures r.Failure? ==> r.error == InternalError && documents == old(documents) && w.id == old(w.id)
      ensures r.Success? ==> r.value == w && w.id.Some? && (old(w.id).Some? ==> w.id == old(w.id))
      ensures r.Success? ==> documents == old(documents)[w.id.value := w.Snapshot()]
    {
      var failed: bool := *;
      if failed {
        return Failure(InternalError);
      }
      if w.id.None? {
        var key: string := *;
        w.id := Some(key);
      }
      documents := documents[w.id.value := w.Snapshot()];
      r := Success(w);
    }

    /** `findById(id)`: a freshly materialised copy of the stored document, if there is one. */
    method FindById(key: string) returns (r: Option<Wishlist>)
      ensures r.Some? <==> key in documents
      ensures r.Some? ==> fresh(r.value) && r.value.id == Some(key) && r.value.Snapshot() == documents[key]
    {
      if key in documents {
        var w := new Wishlist.Load(key, documents[key]);
        r := Some(w);
      } else {
        r := None;
      }
    }

    /** `findByUserId(userId)`: some stored wishlist of that user, if there is one. */
    method FindByUserId(userId: string) returns (r: Option<Wishlist>)
      ensures r.None? <==> !HasUser(userId)
      ensures r.Some? ==> fresh(r.value) && r.value.userId == userId && r.value.id.Some?
                          && r.value.id.value in documents
                          && documents[r.value.id.value] == r.value.Snapshot()
    {
      if key :| key in documents && documents[key].userId == userId {
        var w := new Wishlist.Load(key, documents[key]);
        r := Some(w);
      } else {
        r := None;
      }
    }
  }
}
