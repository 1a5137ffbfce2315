/** The two entity kinds behind IItemValidating, closed into one tagged variant. */
module Models {
  import opened Wrappers

  /** System.Guid, as an opaque identity. */
  type Guid = nat

  datatype ItemStatus = Pending | Approved

  /** A restaurant row. Nullable strings are Option<string>; id is assigned by the
      database identity column when the row is first saved. */
  datatype Restaurant = Restaurant(
    id: int,
    name: Option<string>,
    ownerEmailAddress: Option<string>,
    status: ItemStatus,
    imagePath: Option<string>)
  {
    function GetCardPartial(): (partial: string)
      ensures partial == "_RestaurantCard"
    {
      "_RestaurantCard"
    }

    /** Nobody is a validator of a restaurant: the list is empty. */
    function GetValidators(): (validators: seq<Option<string>>)
      ensures validators == []
    {
      []
    }
  }

  /** A menu item row. restaurant is the navigation property, filled only when a query
      includes it; GetValidators dereferences it. */
  datatype MenuItem = MenuItem(
    id: Guid,
    title: Option<string>,
    price: real,
    restaurantId: int,
    restaurant: Option<Restaurant>,
    status: ItemStatus)
  {
    function GetCardPartial(): (partial: string)
      ensures partial == "_MenuItemRow"
    {
      "_MenuItemRow"
    }

    /** The only validator of a menu item is the owner of its restaurant. */
    function GetValidators(): (validators: seq<Option<string>>)
      requires restaurant.Some?
      ensures |validators| == 1 && validators[0] == restaurant.value.ownerEmailAddress
    {
      [restaurant.value.ownerEmailAddress]
    }
  }

  /** `new Restaurant()`: every property at its C# default. */
  const NewRestaurant: Restaurant := Restaurant(0, None, None, Pending, None)

  /** `new MenuItem()`; id is the value of the Id initializer's Guid.NewGuid(). */
  function NewMenuItem(id: Guid): MenuItem {
    MenuItem(id, Some(""), 0.0, 0, None, Pending)
  }

  /** The defaults the models declare: both kinds start Pending, a restaurant has no image,
      a menu item has an empty title and is linked to no restaurant. */
  lemma Defaults(id: Guid)
    ensures NewRestaurant.status == Pending && NewRestaurant.imagePath == None
    ensures NewMenuItem(id).status == Pending && NewMenuItem(id).title == Some("")
    ensures NewMenuItem(id).restaurantId == 0 && NewMenuItem(id).restaurant == None
  {
  }

  /** An IItemValidating: a restaurant, a menu item, or an implementation of some other
      class, which carries its own answers to the interface's members. */
  datatype Item =
    | R(restaurant: Restaurant)
    | M(menuItem: MenuItem)
    | Other(typeName: string, otherStatus: ItemStatus, validators: seq<Option<string>>, cardPartial: string)
  {
    function Status(): (s: ItemStatus)
      ensures R? ==> s == restaurant.status
      ensures M? ==> s == menuItem.status
    {
      match this
      case R(r) => r.status
      case M(m) => m.status
      case Other(_, s, _, _) => s
    }

    function GetValidators(): (vs: seq<Option<string>>)
      requires M? ==> menuItem.restaurant.Some?
      ensures R? ==> vs == []
      ensures M? ==> vs == [menuItem.restaurant.value.ownerEmailAddress]
    {
      match this
      case R(r) => r.GetValidators()
      case M(m) => m.GetValidators()
      case Other(_, _, vs, _) => vs
    }

    function GetCardPartial(): (partial: string)
      ensures R? ==> partial == "_RestaurantCard"
      ensures M? ==> partial == "_MenuItemRow"
    {
      match this
      case R(r) => r.GetCardPartial()
      case M(m) => m.GetCardPartial()
      case Other(_, _, _, p) => p
    }
  }

  /** A `List<Restaurant>` seen as `IEnumerable<IItemValidating>`. */
  function AsRestaurantItems(rs: seq<Restaurant>): (items: seq<Item>)
    ensures |items| == |rs| && forall i :: 0 <= i < |rs| ==> items[i] == R(rs[i])
    ensures forall x :: multiset(items)[R(x)] == multiset(rs)[x]
    decreases |rs|
  {
    if rs == [] then []
    else
      var items := AsRestaurantItems(rs[..|rs| - 1]) + [R(rs[|rs| - 1])];
      assert rs == rs[..|rs| - 1] + [rs[|rs| - 1]];
      items
  }

  /** A `List<MenuItem>` seen as `IEnumerable<IItemValidating>`. */
  function AsMenuItems(ms: seq<MenuItem>): (items: seq<Item>)
    ensures |items| == |ms| && forall i :: 0 <= i < |ms| ==> items[i] == M(ms[i])
    ensures forall x :: multiset(items)[M(x)] == multiset(ms)[x]
    decreases |ms|
  {
    if ms == [] then []
    else
      var items := AsMenuItems(ms[..|ms| - 1]) + [M(ms[|ms| - 1])];
      assert ms == ms[..|ms| - 1] + [ms[|ms| - 1]];
      items
  }
}
