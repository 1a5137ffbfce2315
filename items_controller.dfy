/** ItemsController.Catalog: the public catalog, choosing one of three approved-only queries. */
module ItemsController {
  import opened Wrappers
  import opened Models
  import opened DbRepository

  /** The items Catalog(view, restaurantId) shows. The comparison with "restaurants" is
      exact; any other view shows menu items, of one restaurant when an id is given. */
  function Catalog(db: ItemsDbRepository, view: string := "restaurants", restaurantId: Option<int> := None): (items: seq<Item>)
    reads db
    ensures view == "restaurants" ==>
      forall x :: multiset(items)[R(x)] == if x.status == Approved then multiset(db.restaurants)[x] else 0
    ensures view != "restaurants" && restaurantId.Some? ==>
      forall x :: multiset(items)[M(x)] == (if x.status == Approved && x.restaurantId == restaurantId.value
        then multiset(db.Included())[x] else 0)
    ensures view != "restaurants" && restaurantId.None? ==>
      forall x :: multiset(items)[M(x)] == if x.status == Approved then multiset(db.Included())[x] else 0
    ensures view == "restaurants" ==> forall i :: 0 <= i < |items| ==> items[i].R?
    ensures view != "restaurants" ==> forall i :: 0 <= i < |items| ==> items[i].M?
  {
    if view == "restaurants" then
      AsRestaurantItems(db.GetApprovedRestaurants())
    else if restaurantId.Some? then
      AsMenuItems(db.GetApprovedMenuItemsForRestaurant(restaurantId.value))
    else
      AsMenuItems(db.GetAllApprovedMenuItems())
  }

  /** The catalog never shows a Pending item, and what it shows is stored. */
  lemma CatalogShowsOnlyApproved(db: ItemsDbRepository, view: string, restaurantId: Option<int>)
    ensures var items := Catalog(db, view, restaurantId);
      forall i :: 0 <= i < |items| ==> items[i].Status() == Approved
  {
    var items := Catalog(db, view, restaurantId);
    forall i | 0 <= i < |items|
      ensures items[i].Status() == Approved
    {
      assert multiset(items)[items[i]] > 0;
    }
  }

  /** "Restaurants" is not "restaurants": it takes the menu item branch. */
  lemma ViewMatchIsCaseSensitive(db: ItemsDbRepository)
    ensures forall i :: 0 <= i < |Catalog(db, "Restaurants")| ==> Catalog(db, "Restaurants")[i].M?
    ensures Catalog(db) == Catalog(db, "restaurants", None)
  {
    assert "Restaurants"[0] != "restaurants"[0];
  }
}
