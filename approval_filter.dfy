/** ApprovalAuthorizeFilter: before an approval action runs, the requester must be among
    the validators of every stored row the request names; one failing row forbids the
    whole request. */
module ApprovalFilter {
  import opened Wrappers
  import opened Text
  import opened Models
  import opened DbRepository

  /** The value an action argument holds: an int[], a Guid[], null, or an object of some
      other type. */
  datatype ArgumentValue = IntArray(ints: seq<int>) | GuidArray(guids: seq<Guid>) | NullValue | OtherValue

  /** Forbid sets context.Result; Continue runs the action (`await next()`); Fault is the
      NullReferenceException GetValidators raises on a menu item whose restaurant Include
      did not load. */
  datatype Outcome = Forbid | Continue | Fault

  /** `FindFirstValue(ClaimTypes.Email) ?? Identity?.Name`. */
  function RequesterEmail(emailClaim: Option<string>, identityName: Option<string>): (r: Option<string>)
    ensures emailClaim.Some? ==> r == emailClaim
    ensures r.None? <==> emailClaim.None? && identityName.None?
    ensures r.Some? ==> r == emailClaim || r == identityName
  {
    if emailClaim.Some? then emailClaim else identityName
  }

  /** `rObj as int[] ?? Array.Empty<int>()`: a missing or mistyped argument is an empty list. */
  function RestaurantIdsArgument(args: map<string, ArgumentValue>): (r: seq<int>)
    ensures r != [] ==> "restaurantIds" in args && args["restaurantIds"] == IntArray(r)
    ensures "restaurantIds" !in args || !args["restaurantIds"].IntArray? ==> r == []
  {
    if "restaurantIds" in args && args["restaurantIds"].IntArray? then args["restaurantIds"].ints else []
  }

  /** `mObj as Guid[] ?? Array.Empty<Guid>()`. */
  function MenuItemIdsArgument(args: map<string, ArgumentValue>): (r: seq<Guid>)
    ensures r != [] ==> "menuItemIds" in args && args["menuItemIds"] == GuidArray(r)
    ensures "menuItemIds" !in args || !args["menuItemIds"].GuidArray? ==> r == []
  {
    if "menuItemIds" in args && args["menuItemIds"].GuidArray? then args["menuItemIds"].guids else []
  }

  /** `validators.Any(v => string.Equals(v, email, OrdinalIgnoreCase))`; a null validator
      matches no (non-null) email. */
  predicate Admits(validators: seq<Option<string>>, email: string) {
    exists i :: 0 <= i < |validators| && validators[i].Some? && EqualsIgnoreCase(validators[i].value, email)
  }

  /** Every stored restaurant named by ids admits the requester. */
  predicate RestaurantsPass(rs: seq<Restaurant>, ids: seq<int>, email: string) {
    forall i :: 0 <= i < |rs| && rs[i].id in ids ==> Admits(rs[i].GetValidators(), email)
  }

  /** Every stored menu item named by ids has its restaurant and is admitted by its owner. */
  predicate MenuItemsPass(ms: seq<MenuItem>, ids: seq<Guid>, email: string) {
    forall i :: 0 <= i < |ms| && ms[i].id in ids ==>
      ms[i].restaurant.Some? && Admits(ms[i].GetValidators(), email)
  }

  /** Some stored menu item named by ids has no restaurant to take the validator from. */
  predicate Unresolved(ms: seq<MenuItem>, ids: seq<Guid>) {
    exists i :: 0 <= i < |ms| && ms[i].id in ids && ms[i].restaurant.None?
  }

  /** The all-or-nothing rule the filter enforces. */
  predicate Authorized(db: ItemsDbRepository, email: Option<string>, args: map<string, ArgumentValue>)
    reads db
    ensures Authorized(db, email, args) ==>
      email.Some? && exists i :: 0 <= i < |email.value| && !IsWhiteSpace(email.value[i])
    ensures RestaurantIdsArgument(args) == [] && MenuItemIdsArgument(args) == [] ==>
      (Authorized(db, email, args) <==> !IsNullOrWhiteSpace(email))
  {
    && !IsNullOrWhiteSpace(email)
    && RestaurantsPass(db.restaurants, RestaurantIdsArgument(args), email.value)
    && MenuItemsPass(db.Included(), MenuItemIdsArgument(args), email.value)
  }

  /** The foreach with early return: the index of the first row that fails the check, or
      |rows| when every row passes. */
  method FirstRejected<T>(rows: seq<T>, passes: T -> bool) returns (k: nat)
    ensures k <= |rows|
    ensures forall j :: 0 <= j < k ==> passes(rows[j])
    ensures k < |rows| ==> !passes(rows[k])
  {
    k := 0;
    while k < |rows|
      invariant k <= |rows|
      invariant forall j :: 0 <= j < k ==> passes(rows[j])
    {
      if !passes(rows[k]) {
        return;
      }
      k := k + 1;
    }
  }

  /** The restaurant half of the filter (lines 45-60): Forbid at the first loaded
      restaurant the requester cannot validate, Continue when there is none. */
  method CheckRestaurants(db: ItemsDbRepository, restaurantIds: seq<int>, requester: string) returns (outcome: Outcome)
    ensures outcome != Fault
    ensures outcome == Continue <==> RestaurantsPass(db.restaurants, restaurantIds, requester)
  {
    if |restaurantIds| > 0 {
      var restaurants := db.GetRestaurantsByIds(restaurantIds);
      var k := FirstRejected(restaurants, (r: Restaurant) => Admits(r.GetValidators(), requester));
      if k < |restaurants| {
        RestaurantRowIsStored(db, restaurantIds, restaurants[k]);
        return Forbid;
      }
      RestaurantRowsCovered(db, restaurantIds, requester);
    }
    return Continue;
  }

  /** The menu item half of the filter: Forbid at the first loaded menu item whose owner is
      not the requester, Fault if GetValidators meets a missing restaurant first. */
  method CheckMenuItems(db: ItemsDbRepository, menuItemIds: seq<Guid>, requester: string) returns (outcome: Outcome)
    ensures outcome == Continue <==> MenuItemsPass(db.Included(), menuItemIds, requester)
    ensures outcome == Fault ==> Unresolved(db.Included(), menuItemIds)
  {
    if |menuItemIds| > 0 {
      var menuItems := db.GetMenuItemsByIds(menuItemIds);
      var k := FirstRejected(menuItems,
        (m: MenuItem) => m.restaurant.Some? && Admits(m.GetValidators(), requester));
      if k < |menuItems| {
        MenuItemRowIsStored(db, menuItemIds, menuItems[k]);
        if menuItems[k].restaurant.None? {
          return Fault;
        }
        return Forbid;
      }
      MenuItemRowsCovered(db, menuItemIds, requester);
    }
    return Continue;
  }

  /** OnActionExecutionAsync. The store is only read. */
  method OnActionExecution(db: ItemsDbRepository, emailClaim: Option<string>, identityName: Option<string>,
                           args: map<string, ArgumentValue>) returns (outcome: Outcome)
    ensures IsNullOrWhiteSpace(RequesterEmail(emailClaim, identityName)) ==> outcome == Forbid
    ensures outcome == Continue <==> Authorized(db, RequesterEmail(emailClaim, identityName), args)
    ensures outcome == Fault ==> Unresolved(db.Included(), MenuItemIdsArgument(args))
    ensures var email := RequesterEmail(emailClaim, identityName);
      !IsNullOrWhiteSpace(email) && !RestaurantsPass(db.restaurants, RestaurantIdsArgument(args), email.value)
      ==> outcome == Forbid
  {
    var email := RequesterEmail(emailClaim, identityName);
    if IsNullOrWhiteSpace(email) {
      return Forbid;
    }
    outcome := CheckRestaurants(db, RestaurantIdsArgument(args), email.value);
    if outcome == Forbid {
      return;
    }
    outcome := CheckMenuItems(db, MenuItemIdsArgument(args), email.value);
  }

  /** A request naming a stored restaurant is forbidden: the restaurant loop returns before
      any menu item's validators are read. */
  method StoredRestaurantRequestIsForbidden(db: ItemsDbRepository, emailClaim: Option<string>, identityName: Option<string>,
                                            args: map<string, ArgumentValue>, k: nat) returns (outcome: Outcome)
    requires k < |db.restaurants| && db.restaurants[k].id in RestaurantIdsArgument(args)
    ensures outcome == Forbid
  {
    outcome := OnActionExecution(db, emailClaim, identityName, args);
    var email := RequesterEmail(emailClaim, identityName);
    if !IsNullOrWhiteSpace(email) {
      NamingAStoredRestaurantForbids(db.restaurants, RestaurantIdsArgument(args), email.value);
    }
  }

  /** `Any` over the validators: no validator admits nobody, and one more validator admits
      exactly the requesters it equals ignoring case. */
  lemma AdmitsIsAny(vs: seq<Option<string>>, v: Option<string>, email: string)
    ensures !Admits([], email)
    ensures Admits(vs + [v], email) <==> Admits(vs, email) || (v.Some? && EqualsIgnoreCase(v.value, email))
  {
    var ws := vs + [v];
    assert forall i :: 0 <= i < |vs| ==> ws[i] == vs[i];
    assert ws[|vs|] == v;
  }

  /** A row the restaurant query returns is a stored restaurant with a requested id. */
  lemma RestaurantRowIsStored(db: ItemsDbRepository, ids: seq<int>, x: Restaurant)
    requires x in db.GetRestaurantsByIds(ids)
    ensures exists i :: 0 <= i < |db.restaurants| && db.restaurants[i] == x && x.id in ids
  {
    assert multiset(db.GetRestaurantsByIds(ids))[x] > 0;
    assert x in db.restaurants;
  }

  /** A row the menu item query returns is an included menu item with a requested id. */
  lemma MenuItemRowIsStored(db: ItemsDbRepository, ids: seq<Guid>, x: MenuItem)
    requires x in db.GetMenuItemsByIds(ids)
    ensures exists i :: 0 <= i < |db.Included()| && db.Included()[i] == x && x.id in ids
  {
    assert multiset(db.GetMenuItemsByIds(ids))[x] > 0;
    assert x in db.Included();
  }

  /** When every returned restaurant row admits the requester, every requested stored one does. */
  lemma RestaurantRowsCovered(db: ItemsDbRepository, ids: seq<int>, email: string)
    requires var rows := db.GetRestaurantsByIds(ids);
      forall j :: 0 <= j < |rows| ==> Admits(rows[j].GetValidators(), email)
    ensures RestaurantsPass(db.restaurants, ids, email)
  {
    var rows := db.GetRestaurantsByIds(ids);
    assert |rows| > 0 ==> !Admits(rows[0].GetValidators(), email);
    forall i | 0 <= i < |db.restaurants|
      ensures db.restaurants[i].id !in ids
    {
      assert multiset(db.restaurants)[db.restaurants[i]] > 0;
    }
  }

  /** When every returned menu item row admits the requester, every requested stored one does. */
  lemma MenuItemRowsCovered(db: ItemsDbRepository, ids: seq<Guid>, email: string)
    requires var rows := db.GetMenuItemsByIds(ids);
      forall j :: 0 <= j < |rows| ==> rows[j].restaurant.Some? && Admits(rows[j].GetValidators(), email)
    ensures MenuItemsPass(db.Included(), ids, email)
  {
    var rows := db.GetMenuItemsByIds(ids);
    var inc := db.Included();
    forall i | 0 <= i < |inc| && inc[i].id in ids
      ensures inc[i].restaurant.Some? && Admits(inc[i].GetValidators(), email)
    {
      var x := inc[i];
      assert multiset(rows)[x] > 0;
      assert x in rows;
    }
  }

  /** Restaurants have no validators, so a request naming a stored restaurant is forbidden,
      and the restaurant check passes exactly when no stored restaurant is named. */
  lemma NamingAStoredRestaurantForbids(rs: seq<Restaurant>, ids: seq<int>, email: string)
    ensures RestaurantsPass(rs, ids, email) <==> forall i :: 0 <= i < |rs| ==> rs[i].id !in ids
  {
    forall i | 0 <= i < |rs|
      ensures !Admits(rs[i].GetValidators(), email)
    {
      assert rs[i].GetValidators() == [];
    }
  }

  /** A menu item whose restaurant is loaded passes exactly when its owner's email equals the
      requester's ignoring case. */
  lemma MenuItemPassesForItsOwner(m: MenuItem, email: string)
    requires m.restaurant.Some?
    ensures Admits(m.GetValidators(), email) <==>
      m.restaurant.value.ownerEmailAddress.Some? && EqualsIgnoreCase(m.restaurant.value.ownerEmailAddress.value, email)
  {
    var vs := m.GetValidators();
    if m.restaurant.value.ownerEmailAddress.Some? && EqualsIgnoreCase(m.restaurant.value.ownerEmailAddress.value, email) {
      assert vs[0].Some? && EqualsIgnoreCase(vs[0].value, email);
    }
  }

  /** Requested ids that name no stored row do not affect the decision. */
  lemma AbsentIdsAreIgnored(rs: seq<Restaurant>, rIds: seq<int>, absent: int, ms: seq<MenuItem>, mIds: seq<Guid>, missing: Guid, email: string)
    requires forall i :: 0 <= i < |rs| ==> rs[i].id != absent
    requires forall i :: 0 <= i < |ms| ==> ms[i].id != missing
    ensures RestaurantsPass(rs, rIds + [absent], email) <==> RestaurantsPass(rs, rIds, email)
    ensures MenuItemsPass(ms, mIds + [missing], email) <==> MenuItemsPass(ms, mIds, email)
  {
    assert forall i :: 0 <= i < |rs| ==> (rs[i].id in rIds + [absent] <==> rs[i].id in rIds);
    assert forall i :: 0 <= i < |ms| ==> (ms[i].id in mIds + [missing] <==> ms[i].id in mIds);
  }

  /** Empty (or missing, or mistyped) id lists with a usable email let the action run. */
  lemma EmptyRequestContinues(db: ItemsDbRepository, email: Option<string>, args: map<string, ArgumentValue>)
    requires !IsNullOrWhiteSpace(email)
    requires "restaurantIds" !in args || !args["restaurantIds"].IntArray? || args["restaurantIds"].ints == []
    requires "menuItemIds" !in args || !args["menuItemIds"].GuidArray? || args["menuItemIds"].guids == []
    ensures Authorized(db, email, args)
  {
  }

  /** One failing row forbids the whole request, whatever the other rows say. */
  lemma OneFailingMenuItemForbids(db: ItemsDbRepository, email: Option<string>, args: map<string, ArgumentValue>, k: nat)
    requires k < |db.Included()| && db.Included()[k].id in MenuItemIdsArgument(args)
    requires db.Included()[k].restaurant.Some?
    requires !IsNullOrWhiteSpace(email) && !Admits(db.Included()[k].GetValidators(), email.value)
    ensures !Authorized(db, email, args)
  {
  }

  /** The decision depends on the requester's email only up to case. */
  lemma DecisionIgnoresCase(db: ItemsDbRepository, e1: string, e2: string, args: map<string, ArgumentValue>)
    requires EqualsIgnoreCase(e1, e2)
    ensures Authorized(db, Some(e1), args) <==> Authorized(db, Some(e2), args)
  {
    assert forall c :: IsWhiteSpace(c) ==> LowerChar(c) == c;
    assert forall i :: 0 <= i < |e1| ==> (IsWhiteSpace(e1[i]) <==> IsWhiteSpace(e2[i])) by {
      forall i | 0 <= i < |e1|
        ensures IsWhiteSpace(e1[i]) <==> IsWhiteSpace(e2[i])
      {
        assert ToLower(e1)[i] == ToLower(e2)[i];
      }
    }
    forall vs: seq<Option<string>>
      ensures Admits(vs, e1) <==> Admits(vs, e2)
    {
    }
  }
}
