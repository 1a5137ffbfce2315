/** ItemsDbRepository: the persistent store. The two tables Restaurants and MenuItems are
    sequences; a query without OrderBy is specified by the multiset of rows it returns. */
module DbRepository {
  import opened Wrappers
  import opened Models
  import Seqs

  /** The restaurants among items, in their order (the `case Restaurant` arm). */
  function RestaurantsOf(items: seq<Item>): (r: seq<Restaurant>)
    ensures |r| <= |items|
    ensures (forall i :: 0 <= i < |items| ==> items[i].R?) ==> |r| == |items|
    decreases |items|
  {
    if items == [] then []
    else
      var last := items[|items| - 1];
      RestaurantsOf(items[..|items| - 1]) + (if last.R? then [last.restaurant] else [])
  }

  /** The menu items among items, in their order (the `case MenuItem` arm). */
  function MenuItemsOf(items: seq<Item>): (r: seq<MenuItem>)
    ensures |r| <= |items|
    ensures (forall i :: 0 <= i < |items| ==> items[i].M?) ==> |r| == |items|
    decreases |items|
  {
    if items == [] then []
    else
      var last := items[|items| - 1];
      MenuItemsOf(items[..|items| - 1]) + (if last.M? then [last.menuItem] else [])
  }

  /** Routing is by kind only: it distributes over concatenation, so relative order is kept. */
  lemma {:induction false} RoutingConcat(a: seq<Item>, b: seq<Item>)
    ensures RestaurantsOf(a + b) == RestaurantsOf(a) + RestaurantsOf(b)
    ensures MenuItemsOf(a + b) == MenuItemsOf(a) + MenuItemsOf(b)
    decreases |b|
  {
    if b == [] {
      assert a + b == a;
    } else {
      var b' := b[..|b| - 1];
      assert (a + b)[..|a + b| - 1] == a + b';
      assert (a + b)[|a + b| - 1] == b[|b| - 1];
      RoutingConcat(a, b');
    }
  }

  /** Every routed row comes from an item of its kind and every such item is routed: with no
      item of a third kind the two lists together are as long as the input. */
  lemma {:induction false} RoutingIsExact(items: seq<Item>)
    ensures forall x :: x in RestaurantsOf(items) <==> R(x) in items
    ensures forall x :: x in MenuItemsOf(items) <==> M(x) in items
    ensures (forall i :: 0 <= i < |items| ==> !items[i].Other?) ==>
      |RestaurantsOf(items)| + |MenuItemsOf(items)| == |items|
    decreases |items|
  {
    if items != [] {
      var front := items[..|items| - 1];
      RoutingIsExact(front);
      assert items == front + [items[|items| - 1]];
      assert forall x :: x in items <==> x in front || x == items[|items| - 1];
    }
  }

  /** The restaurants as SaveChanges stores them: the identity column numbers them from first on. */
  function Numbered(rs: seq<Restaurant>, first: int): (r: seq<Restaurant>)
    ensures |r| == |rs|
    ensures forall i :: 0 <= i < |rs| ==> r[i] == rs[i].(id := first + i)
    ensures forall i, j :: 0 <= i < j < |r| ==> first <= r[i].id < r[j].id < first + |rs|
  {
    seq(|rs|, i requires 0 <= i < |rs| => rs[i].(id := first + i))
  }

  /** `ids != null && ids.Contains(id)`. */
  predicate Named<T(==)>(ids: Option<seq<T>>, id: T) {
    ids.Some? && id in ids.value
  }

  /** The restaurant rows after ApproveAsync's first loop. */
  function ApproveRestaurantRows(rs: seq<Restaurant>, ids: Option<seq<int>>): seq<Restaurant> {
    seq(|rs|, i requires 0 <= i < |rs| => if Named(ids, rs[i].id) then rs[i].(status := Approved) else rs[i])
  }

  /** The menu item rows after ApproveAsync's second loop. */
  function ApproveMenuItemRows(ms: seq<MenuItem>, ids: Option<seq<Guid>>): seq<MenuItem> {
    seq(|ms|, i requires 0 <= i < |ms| => if Named(ids, ms[i].id) then ms[i].(status := Approved) else ms[i])
  }

  /** A named row becomes Approved; every other row, and every field but Status, is kept. */
  lemma ApproveRowsChangeOnlyNamedStatus(rs: seq<Restaurant>, rIds: Option<seq<int>>, ms: seq<MenuItem>, mIds: Option<seq<Guid>>)
    ensures var rs' := ApproveRestaurantRows(rs, rIds);
      && |rs'| == |rs|
      && (forall i :: 0 <= i < |rs| ==> rs'[i] == rs[i].(status := rs'[i].status))
      && (forall i :: 0 <= i < |rs| ==> (rs'[i].status == Approved <==> Named(rIds, rs[i].id) || rs[i].status == Approved))
      && (forall i :: 0 <= i < |rs| && !Named(rIds, rs[i].id) ==> rs'[i] == rs[i])
    ensures var ms' := ApproveMenuItemRows(ms, mIds);
      && |ms'| == |ms|
      && (forall i :: 0 <= i < |ms| ==> ms'[i] == ms[i].(status := ms'[i].status))
      && (forall i :: 0 <= i < |ms| ==> (ms'[i].status == Approved <==> Named(mIds, ms[i].id) || ms[i].status == Approved))
      && (forall i :: 0 <= i < |ms| && !Named(mIds, ms[i].id) ==> ms'[i] == ms[i])
  {
  }

  /** A null or empty id list approves nothing. */
  lemma ApproveNothingIsNoOp(rs: seq<Restaurant>, ms: seq<MenuItem>)
    ensures ApproveRestaurantRows(rs, None) == rs && ApproveRestaurantRows(rs, Some([])) == rs
    ensures ApproveMenuItemRows(ms, None) == ms && ApproveMenuItemRows(ms, Some([])) == ms
  {
  }

  /** Approving twice is approving once. */
  lemma ApproveIdempotent(rs: seq<Restaurant>, rIds: Option<seq<int>>, ms: seq<MenuItem>, mIds: Option<seq<Guid>>)
    ensures ApproveRestaurantRows(ApproveRestaurantRows(rs, rIds), rIds) == ApproveRestaurantRows(rs, rIds)
    ensures ApproveMenuItemRows(ApproveMenuItemRows(ms, mIds), mIds) == ApproveMenuItemRows(ms, mIds)
  {
  }

  /** The restaurant row with the given id, which Include loads as a menu item's Restaurant. */
  function FindRestaurant(rs: seq<Restaurant>, id: int): (r: Option<Restaurant>)
    ensures r.None? <==> forall i :: 0 <= i < |rs| ==> rs[i].id != id
    ensures r.Some? ==> r.value in rs && r.value.id == id
    decreases |rs|
  {
    if rs == [] then None
    else if rs[0].id == id then Some(rs[0])
    else FindRestaurant(rs[1..], id)
  }

  class ItemsDbRepository {
    var restaurants: seq<Restaurant>
    var menuItems: seq<MenuItem>
    /** The next value of the Restaurants identity column. */
    var nextRestaurantId: int

    /** Restaurant ids are unique and below the next identity value. */
    ghost predicate Valid()
      reads this
    {
      && (forall i, j :: 0 <= i < j < |restaurants| ==> restaurants[i].id != restaurants[j].id)
      && (forall i :: 0 <= i < |restaurants| ==> restaurants[i].id < nextRestaurantId)
    }

    /** An empty database; SQL Server identity columns start at 1. */
    constructor ()
      ensures restaurants == [] && menuItems == [] && nextRestaurantId == 1
      ensures Valid()
    {
      restaurants := [];
      menuItems := [];
      nextRestaurantId := 1;
    }

    /** SaveAsync: each restaurant is added to Restaurants and each menu item to MenuItems,
        in input order, and SaveChanges stores them, restaurants numbered by the identity
        column. An item of any other kind throws before SaveChanges: nothing is stored. */
    method Save(items: seq<Item>) returns (ok: bool)
      requires Valid()
      modifies this
      ensures ok <==> forall i :: 0 <= i < |items| ==> !items[i].Other?
      ensures ok ==> restaurants == old(restaurants) + Numbered(RestaurantsOf(items), old(nextRestaurantId))
      ensures ok ==> menuItems == old(menuItems) + MenuItemsOf(items)
      ensures ok ==> nextRestaurantId == old(nextRestaurantId) + |RestaurantsOf(items)|
      ensures !ok ==> unchanged(this)
      ensures Valid()
    {
      var addedRestaurants: seq<Restaurant> := [];
      var addedMenuItems: seq<MenuItem> := [];
      var i := 0;
      while i < |items|
        invariant 0 <= i <= |items|
        invariant forall j :: 0 <= j < i ==> !items[j].Other?
        invariant addedRestaurants == RestaurantsOf(items[..i])
        invariant addedMenuItems == MenuItemsOf(items[..i])
      {
        assert items[..i + 1][..i] == items[..i];
        match items[i] {
          case R(r) =>
            addedRestaurants := addedRestaurants + [r];
          case M(m) =>
            addedMenuItems := addedMenuItems + [m];
          case Other(_, _, _, _) =>
            return false;
        }
        i := i + 1;
      }
      assert items[..i] == items;
      var stored := Numbered(addedRestaurants, nextRestaurantId);
      restaurants := restaurants + stored;
      menuItems := menuItems + addedMenuItems;
      nextRestaurantId := nextRestaurantId + |addedRestaurants|;
      ok := true;
    }

    /** GetAsync as an item sequence: every restaurant row, then every menu item row. Each
        ToListAsync has no OrderBy, so within each part only the rows are fixed, not their
        order. */
    function Get(): (r: seq<Item>)
      reads this
      ensures |r| == |restaurants| + |menuItems|
      ensures forall i :: 0 <= i < |restaurants| ==> r[i].R?
      ensures forall i :: |restaurants| <= i < |r| ==> r[i].M?
      ensures forall x :: multiset(r[..|restaurants|])[R(x)] == multiset(restaurants)[x]
      ensures forall x :: multiset(r[|restaurants|..])[M(x)] == multiset(menuItems)[x]
    {
      var rs, ms := AsRestaurantItems(restaurants), AsMenuItems(menuItems);
      assert (rs + ms)[..|restaurants|] == rs && (rs + ms)[|restaurants|..] == ms;
      rs + ms
    }

    /** The menu item rows with `.Include(m => m.Restaurant)` applied. */
    function Included(): (r: seq<MenuItem>)
      reads this
      ensures |r| == |menuItems|
      ensures forall i :: 0 <= i < |r| ==>
        r[i] == menuItems[i].(restaurant := FindRestaurant(restaurants, menuItems[i].restaurantId))
    {
      seq(|menuItems|, i requires 0 <= i < |menuItems| reads this =>
        menuItems[i].(restaurant := FindRestaurant(restaurants, menuItems[i].restaurantId)))
    }

    /** GetApprovedRestaurantsAsync: exactly the Approved restaurants. */
    function GetApprovedRestaurants(): (r: seq<Restaurant>)
      reads this
      ensures forall x :: multiset(r)[x] == if x.status == Approved then multiset(restaurants)[x] else 0
    {
      var keep := (x: Restaurant) => x.status == Approved;
      Seqs.FilterMultiset(restaurants, keep);
      Seqs.Filter(restaurants, keep)
    }

    /** GetPendingRestaurantsAsync: exactly the Pending restaurants. */
    function GetPendingRestaurants(): (r: seq<Restaurant>)
      reads this
      ensures forall x :: multiset(r)[x] == if x.status == Pending then multiset(restaurants)[x] else 0
    {
      var keep := (x: Restaurant) => x.status == Pending;
      Seqs.FilterMultiset(restaurants, keep);
      Seqs.Filter(restaurants, keep)
    }

    /** GetOwnedRestaurantsAsync: the restaurants whose owner equals ownerEmail exactly
        (case-sensitive; a null owner matches only a null argument). */
    function GetOwnedRestaurants(ownerEmail: Option<string>): (r: seq<Restaurant>)
      reads this
      ensures forall x :: multiset(r)[x] == if x.ownerEmailAddress == ownerEmail then multiset(restaurants)[x] else 0
    {
      var keep := (x: Restaurant) => x.ownerEmailAddress == ownerEmail;
      Seqs.FilterMultiset(restaurants, keep);
      Seqs.Filter(restaurants, keep)
    }

    /** GetRestaurantsByIdsAsync: exactly the restaurants whose id is listed. */
    function GetRestaurantsByIds(ids: seq<int>): (r: seq<Restaurant>)
      reads this
      ensures forall x :: multiset(r)[x] == if x.id in ids then multiset(restaurants)[x] else 0
    {
      var keep := (x: Restaurant) => x.id in ids;
      Seqs.FilterMultiset(restaurants, keep);
      Seqs.Filter(restaurants, keep)
    }

    /** GetApprovedMenuItemsForRestaurantAsync: the Approved menu items of the restaurant,
        each with its restaurant loaded. */
    function GetApprovedMenuItemsForRestaurant(restaurantId: int): (r: seq<MenuItem>)
      reads this
      ensures forall x :: multiset(r)[x] == (if x.status == Approved && x.restaurantId == restaurantId
        then multiset(Included())[x] else 0)
    {
      var keep := (x: MenuItem) => x.status == Approved && x.restaurantId == restaurantId;
      Seqs.FilterMultiset(Included(), keep);
      Seqs.Filter(Included(), keep)
    }

    /** GetAllApprovedMenuItemsAsync: the Approved menu items, each with its restaurant loaded. */
    function GetAllApprovedMenuItems(): (r: seq<MenuItem>)
      reads this
      ensures forall x :: multiset(r)[x] == if x.status == Approved then multiset(Included())[x] else 0
    {
      var keep := (x: MenuItem) => x.status == Approved;
      Seqs.FilterMultiset(Included(), keep);
      Seqs.Filter(Included(), keep)
    }

    /** GetPendingMenuItemsForRestaurantAsync: the Pending menu items of the restaurant,
        each with its restaurant loaded. */
    function GetPendingMenuItemsForRestaurant(restaurantId: int): (r: seq<MenuItem>)
      reads this
      ensures forall x :: multiset(r)[x] == (if x.restaurantId == restaurantId && x.status == Pending
        then multiset(Included())[x] else 0)
    {
      var keep := (x: MenuItem) => x.restaurantId == restaurantId && x.status == Pending;
      Seqs.FilterMultiset(Included(), keep);
      Seqs.Filter(Included(), keep)
    }

    /** GetMenuItemsByIdsAsync: exactly the menu items whose id is listed, each with its
        restaurant loaded. */
    function GetMenuItemsByIds(ids: seq<Guid>): (r: seq<MenuItem>)
      reads this
      ensures forall x :: multiset(r)[x] == if x.id in ids then multiset(Included())[x] else 0
    {
      var keep := (x: MenuItem) => x.id in ids;
      Seqs.FilterMultiset(Included(), keep);
      Seqs.Filter(Included(), keep)
    }

    /** ApproveAsync: every row whose id is listed is set to Approved in place, then the
        changes are saved; nothing else changes. */
    method Approve(restaurantIds: Option<seq<int>>, menuItemIds: Option<seq<Guid>>)
      modifies this
      ensures restaurants == ApproveRestaurantRows(old(restaurants), restaurantIds)
      ensures menuItems == ApproveMenuItemRows(old(menuItems), menuItemIds)
      ensures nextRestaurantId == old(nextRestaurantId)
      ensures old(Valid()) ==> Valid()
    {
      if restaurantIds.Some? && |restaurantIds.value| > 0 {
        var i := 0;
        while i < |restaurants|
          invariant 0 <= i <= |restaurants| == |old(restaurants)|
          invariant forall j :: 0 <= j < i ==>
            restaurants[j] == ApproveRestaurantRows(old(restaurants), restaurantIds)[j]
          invariant forall j :: i <= j < |restaurants| ==> restaurants[j] == old(restaurants)[j]
          invariant menuItems == old(menuItems) && nextRestaurantId == old(nextRestaurantId)
        {
          if restaurants[i].id in restaurantIds.value {
            restaurants := restaurants[i := restaurants[i].(status := Approved)];
          }
          i := i + 1;
        }
      }
      assert restaurants == ApproveRestaurantRows(old(restaurants), restaurantIds);
      if menuItemIds.Some? && |menuItemIds.value| > 0 {
        var i := 0;
        while i < |menuItems|
          invariant 0 <= i <= |menuItems| == |old(menuItems)|
          invariant forall j :: 0 <= j < i ==>
            menuItems[j] == ApproveMenuItemRows(old(menuItems), menuItemIds)[j]
          invariant forall j :: i <= j < |menuItems| ==> menuItems[j] == old(menuItems)[j]
          invariant restaurants == ApproveRestaurantRows(old(restaurants), restaurantIds)
          invariant nextRestaurantId == old(nextRestaurantId)
        {
          if menuItems[i].id in menuItemIds.value {
            menuItems := menuItems[i := menuItems[i].(status := Approved)];
          }
          i := i + 1;
        }
      }
      assert menuItems == ApproveMenuItemRows(old(menuItems), menuItemIds);
    }
  }

  /** GetRestaurantsByIdsAsync ignores an id that names no restaurant. */
  lemma AbsentRestaurantIdContributesNothing(db: ItemsDbRepository, ids: seq<int>, absent: int)
    requires forall i :: 0 <= i < |db.restaurants| ==> db.restaurants[i].id != absent
    ensures multiset(db.GetRestaurantsByIds(ids + [absent])) == multiset(db.GetRestaurantsByIds(ids))
  {
    var rs, rs' := db.GetRestaurantsByIds(ids + [absent]), db.GetRestaurantsByIds(ids);
    forall x: Restaurant | x.id == absent
      ensures multiset(rs)[x] == multiset(rs')[x]
    {
      assert x !in db.restaurants;
    }
  }

  /** GetMenuItemsByIdsAsync ignores an id that names no menu item. */
  lemma AbsentMenuItemIdContributesNothing(db: ItemsDbRepository, ids: seq<Guid>, absent: Guid)
    requires forall i :: 0 <= i < |db.menuItems| ==> db.menuItems[i].id != absent
    ensures multiset(db.GetMenuItemsByIds(ids + [absent])) == multiset(db.GetMenuItemsByIds(ids))
  {
    var inc := db.Included();
    var ms, ms' := db.GetMenuItemsByIds(ids + [absent]), db.GetMenuItemsByIds(ids);
    forall x: MenuItem | x.id == absent
      ensures multiset(ms)[x] == multiset(ms')[x]
    {
      assert x !in inc;
    }
  }

  /** Every row a query returns is stored (with its restaurant loaded, for menu items). */
  lemma QueryRowsAreStored(db: ItemsDbRepository, x: Restaurant, y: MenuItem, id: int)
    ensures x in db.GetApprovedRestaurants() ==> x in db.restaurants && x.status == Approved
    ensures x in db.GetPendingRestaurants() ==> x in db.restaurants && x.status == Pending
    ensures y in db.GetApprovedMenuItemsForRestaurant(id) ==>
      y in db.Included() && y.status == Approved && y.restaurantId == id
    ensures y in db.GetPendingMenuItemsForRestaurant(id) ==>
      y in db.Included() && y.status == Pending && y.restaurantId == id
    ensures y in db.GetAllApprovedMenuItems() ==> y in db.Included() && y.status == Approved
    ensures y in db.Included() ==> y.restaurant == FindRestaurant(db.restaurants, y.restaurantId)
  {
    assert x in db.GetApprovedRestaurants() <==> multiset(db.GetApprovedRestaurants())[x] > 0;
    assert x in db.GetPendingRestaurants() <==> multiset(db.GetPendingRestaurants())[x] > 0;
    assert y in db.GetApprovedMenuItemsForRestaurant(id) <==> multiset(db.GetApprovedMenuItemsForRestaurant(id))[y] > 0;
    assert y in db.GetPendingMenuItemsForRestaurant(id) <==> multiset(db.GetPendingMenuItemsForRestaurant(id))[y] > 0;
    assert y in db.GetAllApprovedMenuItems() <==> multiset(db.GetAllApprovedMenuItems())[y] > 0;
  }
}
