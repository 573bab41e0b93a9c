/**
 * Favourites: a user marks or unmarks a product, one toggle at a time.
 */
module Favorites {
  import opened Wrappers
  import opened Shop

  datatype Action = AddedAction | RemovedAction

  /** The reply: the product was not found, or what the toggle did, with the
      new favourite when one was created. */
  datatype ToggleOutcome =
    | ProductNotFound
    | Toggled(action: Action, productId: ProductId, favorite: Option<Favorite>)

  /** The favourites after toggling `f`: removed when present, added when
      absent. */
  function Flip(favorites: set<Favorite>, f: Favorite): (r: set<Favorite>)
    ensures f in r <==> f !in favorites
    ensures forall g :: g != f ==> (g in r <==> g in favorites)
  {
    if f in favorites then favorites - {f} else favorites + {f}
  }

  /** Toggling the same pair twice gives back the favourites one started
      with. */
  lemma FlipTwice(favorites: set<Favorite>, f: Favorite)
    ensures Flip(Flip(favorites, f), f) == favorites
  {
  }

  /** Toggles whether `userId` favours `pid`. A product that is missing,
      hidden or in an inactive store is not found and nothing changes.
      Otherwise an existing favourite is removed (and none is returned), a
      missing one is created (and returned). */
  method ToggleFavorite(shop: Shop, userId: UserId, pid: ProductId) returns (outcome: ToggleOutcome)
    modifies shop`favorites
    ensures outcome == ProductNotFound <==> !shop.Available(pid)
    ensures outcome == ProductNotFound ==> shop.favorites == old(shop.favorites)
    ensures outcome.Toggled? ==>
      var f := Favorite(userId, pid);
      && shop.favorites == Flip(old(shop.favorites), f)
      && outcome.productId == pid
      && (outcome.action == RemovedAction <==> f in old(shop.favorites))
      && (outcome.favorite.Some? <==> outcome.action == AddedAction)
      && (outcome.favorite.Some? ==> outcome.favorite.value == f)
  {
    if !shop.Available(pid) {
      return ProductNotFound;
    }
    var f := Favorite(userId, pid);
    if f in shop.favorites {
      shop.favorites := shop.favorites - {f};
      outcome := Toggled(RemovedAction, pid, None);
    } else {
      shop.favorites := shop.favorites + {f};
      outcome := Toggled(AddedAction, pid, Some(f));
    }
  }
}
