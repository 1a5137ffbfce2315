/** ImportItemFactory.Create: a JSON array of records becomes, in the same order, a list of
    restaurants and menu items, dispatched on the lower-cased "type" field. */
module ImportItemFactory {
  import opened Wrappers
  import opened Text
  import opened Json
  import opened Models
  import Seqs

  /** The record's "type" lower-cased; None when the field holds JSON null (`GetString()?.ToLower()`). */
  function TypeTag(e: Json): (r: Result<Option<string>, JsonError>)
    ensures r.Ok? <==> Member(e, "type").Some? && (Member(e, "type").value.Str? || Member(e, "type").value.Null?)
    ensures r.Ok? ==> (r.value.None? <==> Member(e, "type") == Some(Null))
    ensures r.Ok? && r.value.Some? ==>
      Member(e, "type").value.Str? && r.value.value == ToLower(Member(e, "type").value.s)
  {
    var t :- GetProperty(e, "type");
    var s :- GetString(t);
    Ok(if s.Some? then Some(ToLower(s.value)) else None)
  }

  /** A record the factory turns into an item: its tag is exactly "restaurant" or "menuitem". */
  predicate IsItemRecord(e: Json) {
    TypeTag(e) == Ok(Some("restaurant")) || TypeTag(e) == Ok(Some("menuitem"))
  }

  /** `element.GetProperty(name).GetString()`. */
  function StringProperty(e: Json, name: string): (r: Result<Option<string>, JsonError>)
    ensures !e.Obj? ==> r == Err(NotAnObject)
    ensures e.Obj? && Member(e, name).None? ==> r == Err(MissingProperty(name))
    ensures r.Ok? <==> Member(e, name).Some? && (Member(e, name).value.Str? || Member(e, name).value.Null?)
    ensures r.Ok? ==> (r.value.None? <==> Member(e, name) == Some(Null))
    ensures r.Ok? && r.value.Some? ==> Member(e, name) == Some(Str(r.value.value))
  {
    var v :- GetProperty(e, name);
    GetString(v)
  }

  /** One iteration of the loop: the item a record yields (None when its type is neither tag),
      or the error its property accesses raise. guid is the value Guid.NewGuid() returns. */
  function Convert(e: Json, guid: Guid): (r: Result<Option<Item>, JsonError>)
    ensures TypeTag(e).Err? ==> r == Err(TypeTag(e).error)
    ensures r.Ok? && r.value.Some? ==> r.value.value.Status() == Pending && !r.value.value.Other?
    ensures r.Ok? && r.value.Some? && r.value.value.M? ==> r.value.value.menuItem.id == guid
  {
    var tag :- TypeTag(e);
    if tag == Some("restaurant") then
      var name :- StringProperty(e, "name");
      var owner :- StringProperty(e, "ownerEmailAddress");
      Ok(Some(R(NewRestaurant.(name := name, ownerEmailAddress := owner, status := Pending))))
    else if tag == Some("menuitem") then
      // `new MenuItem { Id = Guid.NewGuid(), ... }` overwrites the initializer's Guid with a
      // fresh one; the model draws a single fresh value for both.
      var title :- StringProperty(e, "title");
      var p :- GetProperty(e, "price");
      var price :- GetDecimal(p);
      Ok(Some(M(NewMenuItem(guid).(title := title, price := price, status := Pending))))
    else
      Ok(None)
  }

  /** A record yields an item exactly when its tag is "restaurant" or "menuitem"; a missing
      or non-string type is an error, any other tag (or null) is skipped. */
  lemma ConvertDispatchesOnType(e: Json, guid: Guid)
    ensures TypeTag(e).Err? ==> Convert(e, guid) == Err(TypeTag(e).error)
    ensures TypeTag(e).Ok? && !IsItemRecord(e) ==> Convert(e, guid) == Ok(None)
    ensures Convert(e, guid).Ok? ==> (Convert(e, guid).value.Some? <==> IsItemRecord(e))
    ensures Convert(e, guid).Ok? && Convert(e, guid).value.Some? ==>
      (Convert(e, guid).value.value.R? <==> TypeTag(e) == Ok(Some("restaurant"))) &&
      (Convert(e, guid).value.value.M? <==> TypeTag(e) == Ok(Some("menuitem")))
  {
  }

  /** A restaurant record: name and owner copied verbatim, status Pending whatever the
      input holds, every other property at its default. */
  lemma ConvertCopiesRestaurant(e: Json, guid: Guid, x: Restaurant)
    requires Convert(e, guid) == Ok(Some(R(x)))
    ensures Member(e, "name") == Some(JsonOfString(x.name))
    ensures Member(e, "ownerEmailAddress") == Some(JsonOfString(x.ownerEmailAddress))
    ensures x == NewRestaurant.(name := x.name, ownerEmailAddress := x.ownerEmailAddress)
    ensures x.status == Pending
  {
  }

  /** A menu item record: the drawn Guid as id, title and price copied exactly, status
      Pending, and RestaurantId and the restaurant link left at their defaults. */
  lemma ConvertCopiesMenuItem(e: Json, guid: Guid, x: MenuItem)
    requires Convert(e, guid) == Ok(Some(M(x)))
    ensures x.id == guid
    ensures Member(e, "title") == Some(JsonOfString(x.title))
    ensures Member(e, "price") == Some(Number(x.price))
    ensures x == NewMenuItem(guid).(title := x.title, price := x.price)
    ensures x.status == Pending && x.restaurantId == 0 && x.restaurant == None
  {
  }

  /** The properties a restaurant record must have. */
  lemma ConvertRestaurantErrors(e: Json, guid: Guid)
    requires TypeTag(e) == Ok(Some("restaurant"))
    ensures Member(e, "name").None? ==> Convert(e, guid) == Err(MissingProperty("name"))
    ensures (StringProperty(e, "name").Ok? && Member(e, "ownerEmailAddress").None?) ==>
      Convert(e, guid) == Err(MissingProperty("ownerEmailAddress"))
    ensures Convert(e, guid).Ok? <==>
      StringProperty(e, "name").Ok? && StringProperty(e, "ownerEmailAddress").Ok?
  {
  }

  /** The properties a menu item record must have, and its price must be a number. */
  lemma ConvertMenuItemErrors(e: Json, guid: Guid)
    requires TypeTag(e) == Ok(Some("menuitem"))
    ensures Member(e, "title").None? ==> Convert(e, guid) == Err(MissingProperty("title"))
    ensures (StringProperty(e, "title").Ok? && Member(e, "price").None?) ==>
      Convert(e, guid) == Err(MissingProperty("price"))
    ensures (StringProperty(e, "title").Ok? && Member(e, "price").Some? && !Member(e, "price").value.Number?) ==>
      Convert(e, guid) == Err(NotANumber)
    ensures Convert(e, guid).Ok? <==>
      StringProperty(e, "title").Ok? && Member(e, "price").Some? &&
      GetDecimal(Member(e, "price").value).Ok?
  {
  }

  /** The number of menu items in a list: how many Guids were drawn for it. */
  function MenuItemCount(items: seq<Item>): nat
    decreases |items|
  {
    if items == [] then 0
    else (if items[0].M? then 1 else 0) + MenuItemCount(items[1..])
  }

  lemma {:induction false} MenuItemCountConcat(a: seq<Item>, b: seq<Item>)
    ensures MenuItemCount(a + b) == MenuItemCount(a) + MenuItemCount(b)
    decreases |a|
  {
    if a == [] {
      assert a + b == b;
    } else {
      assert (a + b)[0] == a[0];
      assert (a + b)[1..] == a[1..] + b;
      MenuItemCountConcat(a[1..], b);
    }
  }

  /** The items one converted record contributes: none when it was skipped. */
  function Emitted(item: Option<Item>): seq<Item> {
    if item.Some? then [item.value] else []
  }

  /** The next Guid to draw: the record used one when it became a menu item. */
  function Advance(item: Option<Item>, next: Guid): Guid {
    if item.Some? && item.value.M? then next + 1 else next
  }

  /** items in front of the rest of the import, or the rest's error. */
  function Prepend(items: seq<Item>, rest: Result<seq<Item>, JsonError>): Result<seq<Item>, JsonError> {
    if rest.Err? then rest else Ok(items + rest.value)
  }

  lemma PrependAssoc(a: seq<Item>, b: seq<Item>, rest: Result<seq<Item>, JsonError>)
    ensures Prepend(a, Prepend(b, rest)) == Prepend(a + b, rest)
  {
    if rest.Ok? {
      assert a + (b + rest.value) == a + b + rest.value;
    }
  }

  /** What the foreach loop computes over the array's elements with Guids drawn from next
      on: the items in element order, or the error of the first element that fails. */
  function Items(es: seq<Json>, next: Guid): (r: Result<seq<Item>, JsonError>)
    ensures r.Ok? ==> |r.value| <= |es|
    decreases |es|
  {
    if es == [] then Ok([])
    else
      var item :- Convert(es[0], next);
      Prepend(Emitted(item), Items(es[1..], Advance(item, next)))
  }

  /** One turn of the loop: the first element is converted, then the rest is imported. */
  lemma ItemsUnfold(es: seq<Json>, next: Guid)
    requires es != []
    ensures Items(es, next) ==
      var c := Convert(es[0], next);
      if c.Err? then Err(c.error) else Prepend(Emitted(c.value), Items(es[1..], Advance(c.value, next)))
  {
  }

  /** Create's result for a document; None stands for text JsonDocument.Parse rejects. */
  function Import(document: Option<Json>, seed: Guid): (r: Result<seq<Item>, JsonError>)
    ensures document.None? ==> r == Err(Malformed)
    ensures document.Some? && !document.value.Arr? ==> r == Err(NotAnArray)
    ensures document.Some? && document.value.Arr? ==> r == Items(document.value.elements, seed)
  {
    match document
    case None => Err(Malformed)
    case Some(root) =>
      var es :- EnumerateArray(root);
      Items(es, seed)
  }

  /** ImportItemFactory.Create; seed is the first Guid that Guid.NewGuid() hands out. */
  method Create(document: Option<Json>, seed: Guid) returns (r: Result<seq<Item>, JsonError>)
    ensures document.None? ==> r == Err(Malformed)
    ensures document.Some? && !document.value.Arr? ==> r == Err(NotAnArray)
    ensures r == Import(document, seed)
  {
    if document.None? {
      return Err(Malformed);
    }
    var root := document.value;
    if !root.Arr? {
      return Err(NotAnArray);
    }
    var es := root.elements;
    var items: seq<Item> := [];
    var next := seed;
    var i := 0;
    assert es[0..] == es;
    assert Prepend([], Items(es, seed)) == Items(es, seed) by {
      if Items(es, seed).Ok? {
        assert [] + Items(es, seed).value == Items(es, seed).value;
      }
    }
    while i < |es|
      invariant 0 <= i <= |es|
      invariant Items(es, seed) == Prepend(items, Items(es[i..], next))
    {
      var converted := Convert(es[i], next);
      ItemsUnfold(es[i..], next);
      assert es[i..][1..] == es[i + 1..];
      if converted.Err? {
        return Err(converted.error);
      }
      PrependAssoc(items, Emitted(converted.value), Items(es[i + 1..], Advance(converted.value, next)));
      items := items + Emitted(converted.value);
      next := Advance(converted.value, next);
      i := i + 1;
    }
    assert es[i..] == [];
    assert items + [] == items;
    return Ok(items);
  }

  /** The records Create turns into items: those whose tag is "restaurant" or "menuitem". */
  function Selected(es: seq<Json>): seq<Json> {
    Seqs.Filter(es, IsItemRecord)
  }

  lemma SelectedCons(es: seq<Json>)
    requires es != []
    ensures Selected(es) == (if IsItemRecord(es[0]) then [es[0]] else []) + Selected(es[1..])
  {
    Seqs.FilterCons(es, IsItemRecord);
  }

  /** What an item built from record e looks like: of the kind its tag names, its copied
      properties equal to the record's, every other property at its default. */
  predicate Describes(e: Json, item: Item) {
    match item
    case R(x) =>
      && TypeTag(e) == Ok(Some("restaurant"))
      && Member(e, "name") == Some(JsonOfString(x.name))
      && Member(e, "ownerEmailAddress") == Some(JsonOfString(x.ownerEmailAddress))
      && x == NewRestaurant.(name := x.name, ownerEmailAddress := x.ownerEmailAddress)
    case M(x) =>
      && TypeTag(e) == Ok(Some("menuitem"))
      && Member(e, "title") == Some(JsonOfString(x.title))
      && Member(e, "price") == Some(Number(x.price))
      && GetDecimal(Number(x.price)) == Ok(x.price)
      && x == NewMenuItem(x.id).(title := x.title, price := x.price)
    case Other(_, _, _, _) => false
  }

  /** A record yields an item exactly when it is selected; the item then describes the
      record, and a menu item carries the Guid it was given. */
  lemma ConvertDescribes(e: Json, guid: Guid)
    requires Convert(e, guid).Ok?
    ensures Convert(e, guid).value.Some? <==> IsItemRecord(e)
    ensures Convert(e, guid).value.Some? ==> Describes(e, Convert(e, guid).value.value)
    ensures Convert(e, guid).value.Some? && Convert(e, guid).value.value.M? ==>
      Convert(e, guid).value.value.menuItem.id == guid
  {
    ConvertDispatchesOnType(e, guid);
    var c := Convert(e, guid).value;
    if c.Some? {
      match c.value
      case R(x) => ConvertCopiesRestaurant(e, guid, x);
      case M(x) => ConvertCopiesMenuItem(e, guid, x);
      case Other(_, _, _, _) =>
    }
  }

  /** Source order is kept: the k-th item describes the k-th selected record (and there are
      as many items as selected records), so
      restaurants and menu items stay interleaved as in the array, nothing is regrouped,
      and exactly the selected records produce an item. */
  lemma {:induction false} ItemsFollowSourceOrder(es: seq<Json>, next: Guid)
    requires Items(es, next).Ok?
    ensures Seqs.Pointwise(Selected(es), Items(es, next).value, Describes)
    decreases |es|
  {
    if es != [] {
      ItemsUnfold(es, next);
      var c := Convert(es[0], next).value;
      ItemsFollowSourceOrder(es[1..], Advance(c, next));
      ConvertDescribes(es[0], next);
      SelectedCons(es);
      var rest := Items(es[1..], Advance(c, next)).value;
      var sel' := Selected(es[1..]);
      assert c.Some? <==> IsItemRecord(es[0]);
      if c.None? {
        assert Selected(es) == sel' && Items(es, next).value == rest;
      } else {
        assert Items(es, next).value == [c.value] + rest;
        Seqs.PointwiseCons(es[0], sel', c.value, rest, Describes);
      }
    }
  }

  /** Guids drawn in item order from next on: each menu item's id is next plus the number of
      menu items before it. */
  predicate DrawnInOrder(items: seq<Item>, next: Guid) {
    forall k :: 0 <= k < |items| && items[k].M? ==> items[k].menuItem.id == next + MenuItemCount(items[..k])
  }

  lemma DrawnInOrderCons(item: Item, rest: seq<Item>, next: Guid)
    requires item.M? ==> item.menuItem.id == next
    requires DrawnInOrder(rest, Advance(Some(item), next))
    ensures DrawnInOrder([item] + rest, next)
  {
    var items := [item] + rest;
    forall k | 0 <= k < |items| && items[k].M?
      ensures items[k].menuItem.id == next + MenuItemCount(items[..k])
    {
      if k == 0 {
        assert items[..k] == [];
      } else {
        assert items[k] == rest[k - 1];
        assert items[..k] == [item] + rest[..k - 1];
        MenuItemCountConcat([item], rest[..k - 1]);
        assert [item][1..] == [];
      }
    }
  }

  /** Guids are drawn in item order: a menu item's id is the Guid drawn after those of the
      menu items before it. */
  lemma {:induction false} MenuItemGuidsInOrder(es: seq<Json>, next: Guid)
    requires Items(es, next).Ok?
    ensures DrawnInOrder(Items(es, next).value, next)
    decreases |es|
  {
    if es != [] {
      ItemsUnfold(es, next);
      var c := Convert(es[0], next).value;
      ConvertDescribes(es[0], next);
      MenuItemGuidsInOrder(es[1..], Advance(c, next));
      var rest := Items(es[1..], Advance(c, next)).value;
      if c.None? {
        assert Items(es, next).value == rest;
      } else {
        assert Items(es, next).value == [c.value] + rest;
        DrawnInOrderCons(c.value, rest, next);
      }
    }
  }

  /** What every imported item looks like: Pending whatever the input says, never of a
      third kind, menu items unlinked (RestaurantId 0, no restaurant), restaurants without
      an image path. */
  lemma ImportedItemsArePendingAndUnlinked(es: seq<Json>, seed: Guid)
    requires Items(es, seed).Ok?
    ensures var items := Items(es, seed).value;
      forall i :: 0 <= i < |items| ==>
        && items[i].Status() == Pending
        && !items[i].Other?
        && (items[i].M? ==> items[i].menuItem.restaurantId == 0 && items[i].menuItem.restaurant == None)
        && (items[i].R? ==> items[i].restaurant.imagePath == None)
  {
    ItemsFollowSourceOrder(es, seed);
    var items := Items(es, seed).value;
    forall i | 0 <= i < |items|
      ensures items[i].Status() == Pending && !items[i].Other?
    {
      assert Describes(Selected(es)[i], items[i]);
    }
  }

  lemma MenuItemCountGrows(items: seq<Item>, i: nat, j: nat)
    requires i < j <= |items| && items[i].M?
    ensures MenuItemCount(items[..i]) < MenuItemCount(items[..j])
  {
    assert items[..j] == items[..i] + items[i..j];
    MenuItemCountConcat(items[..i], items[i..j]);
    assert items[i..j] == [items[i]] + items[i + 1..j];
    MenuItemCountConcat([items[i]], items[i + 1..j]);
    assert [items[i]][1..] == [];
  }

  /** Each menu item gets its own Guid: the ids are distinct and drawn from
      seed .. seed + MenuItemCount(items) - 1. */
  lemma MenuItemIdsAreFresh(es: seq<Json>, seed: Guid)
    requires Items(es, seed).Ok?
    ensures var items := Items(es, seed).value;
      && (forall i :: 0 <= i < |items| && items[i].M? ==>
            seed <= items[i].menuItem.id < seed + MenuItemCount(items))
      && (forall i, j :: 0 <= i < j < |items| && items[i].M? && items[j].M? ==>
            items[i].menuItem.id != items[j].menuItem.id)
  {
    MenuItemGuidsInOrder(es, seed);
    var items := Items(es, seed).value;
    forall i | 0 <= i < |items| && items[i].M?
      ensures seed <= items[i].menuItem.id < seed + MenuItemCount(items)
    {
      MenuItemCountGrows(items, i, |items|);
      assert items[..|items|] == items;
    }
    forall i, j | 0 <= i < j < |items| && items[i].M? && items[j].M?
      ensures items[i].menuItem.id != items[j].menuItem.id
    {
      MenuItemCountGrows(items, i, j);
    }
  }

  /** Whether a record converts does not depend on the Guid it is given. */
  lemma ConvertFailureIgnoresGuid(e: Json, g: Guid, h: Guid)
    ensures Convert(e, g).Err? == Convert(e, h).Err?
    ensures Convert(e, g).Err? ==> Convert(e, g) == Convert(e, h)
  {
  }

  /** The import succeeds exactly when every record converts. */
  lemma {:induction false} ItemsSucceedIff(es: seq<Json>, next: Guid)
    ensures Items(es, next).Ok? <==> forall j :: 0 <= j < |es| ==> Convert(es[j], 0).Ok?
    decreases |es|
  {
    if es != [] {
      ItemsUnfold(es, next);
      ConvertFailureIgnoresGuid(es[0], 0, next);
      var c := Convert(es[0], next);
      if c.Ok? {
        ItemsSucceedIff(es[1..], Advance(c.value, next));
        assert forall j :: 1 <= j < |es| ==> es[1..][j - 1] == es[j];
      }
    }
  }

  /** No list when any record fails: the error is that of the first failing record. */
  lemma {:induction false} ItemsFailAtFirstBadRecord(es: seq<Json>, next: Guid, i: nat)
    requires i < |es|
    requires Convert(es[i], 0).Err?
    requires forall j :: 0 <= j < i ==> Convert(es[j], 0).Ok?
    ensures Items(es, next) == Err(Convert(es[i], 0).error)
    decreases i
  {
    ItemsUnfold(es, next);
    ConvertFailureIgnoresGuid(es[0], 0, next);
    if i > 0 {
      var c := Convert(es[0], next);
      ItemsFailAtFirstBadRecord(es[1..], Advance(c.value, next), i - 1);
    }
  }

  /** The type match folds case but does not trim. */
  lemma TypeMatchFoldsCaseButDoesNotTrim(g: Guid)
    ensures IsItemRecord(Obj([("type", Str("RestAurant"))]))
    ensures Convert(Obj([("type", Str(" restaurant"))]), g) == Ok(None)
    ensures Convert(Obj([("type", Null)]), g) == Ok(None)
  {
    assert ToLower("RestAurant") == "restaurant";
    assert ToLower(" restaurant") != "restaurant" by { assert ToLower(" restaurant")[0] == ' '; }
    assert ToLower(" restaurant") != "menuitem" by { assert |ToLower(" restaurant")| == 11; }
  }

  /** The type match does not trim: a type string that starts or ends with white space is
      never "restaurant" or "menuitem" once lower-cased, so the record is skipped. */
  lemma PaddedTypeIsSkipped(e: Json, t: string, guid: Guid)
    requires Member(e, "type") == Some(Str(t))
    requires |t| > 0 && (IsWhiteSpace(t[0]) || IsWhiteSpace(t[|t| - 1]))
    ensures !IsItemRecord(e)
    ensures Convert(e, guid) == Ok(None)
  {
    var u := ToLower(t);
    LowerCharKeepsWhiteSpace(t[0]);
    LowerCharKeepsWhiteSpace(t[|t| - 1]);
    assert TypeTag(e) == Ok(Some(u));
    assert IsWhiteSpace(u[0]) || IsWhiteSpace(u[|u| - 1]);
    assert u != "restaurant" && u != "menuitem";
  }
}
