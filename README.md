# Bulk restaurant import and approval, modelled in Dafny

This project models the core of BulkImportRestaurantApp, an ASP.NET application in which:

- a JSON batch of restaurants and menu items is parsed;
- the batch is staged in a memory cache and previewed;
- the batch is committed to the database, with every item Pending;
- owners or the site administrator approve items before the public catalog shows them.

The model has a module for each controller, the factory, the filter and each repository. `Models` covers Restaurant.cs, MenuItem.cs and the IItemValidating interface together. There are also four support modules:

- `Wrappers`: Option and Result.
- `Text`: ASCII `ToLower`, the ordinal ignore-case comparison and `IsNullOrWhiteSpace`.
- `Json`: a parsed JSON value and the `JsonElement` accessors, each returning the exception it would throw as an error value.
- `Seqs`: LINQ `Where` as `Filter`, and its lemmas.

The two entity classes behind `IItemValidating` form one closed variant, `Models.Item`. Its cases are `R` (restaurant) and `M` (menu item). A third case, `Other`, stands for any other implementation of the interface; it is the case that reaches the `default: throw` arm of `SaveAsync`.

State lives in three classes:

- `ItemsInMemoryRepository` holds the "PendingItems" cache slot.
- `ItemsDbRepository` holds the two tables as sequences, plus the next identity value.
- `BulkImportController` holds the memory repository it was constructed with.

The factory reads only "type", "name", "ownerEmailAddress", "title" and "price". It reads no "id" and no "restaurantId", so a menu item keeps RestaurantId 0. Items come out in array order, with restaurants and menu items interleaved. A missing property throws and no list is returned.

The factory's `foreach` is the method `Create`. It is proved equal to the recursive specification `Items`, and the factory's properties are lemmas about `Items`.

The database's `SaveAsync` and `ApproveAsync` are methods with loops. Each is proved against a function of the old tables.

The queries have no `OrderBy`, so each is specified by the multiset of rows it returns.

The authorization filter is a method whose early-return loops are proved to decide the predicate `Authorized`.

## Model

| member | source | states |
|---|---|---|
| Models.Restaurant.GetCardPartial | BulkImportRestaurantApp/Models/Restaurant.cs:25-28 | A restaurant is drawn with the "_RestaurantCard" partial |
| Models.Restaurant.GetValidators | BulkImportRestaurantApp/Models/Restaurant.cs:30-36 | A restaurant has no validators: the list is empty |
| Models.MenuItem.GetCardPartial | BulkImportRestaurantApp/Models/MenuItem.cs:29-32 | A menu item is drawn with the "_MenuItemRow" partial |
| Models.MenuItem.GetValidators | BulkImportRestaurantApp/Models/MenuItem.cs:34-40 | Defined only when the Restaurant navigation property is loaded; then it is exactly one entry, the restaurant's OwnerEmailAddress |
| Models.Item.GetValidators | BulkImportRestaurantApp/Models/Interfaces/IItemValidating.cs:7 | Interface dispatch: empty for a restaurant, the owner's email for a menu item whose restaurant is loaded |
| Models.Item.GetCardPartial | BulkImportRestaurantApp/Models/Interfaces/IItemValidating.cs:9 | Interface dispatch: each entity kind names its own partial |
| Models.Item.Status | BulkImportRestaurantApp/Models/Interfaces/IItemValidating.cs:5 | Interface dispatch: a restaurant's and a menu item's Status are their own status field |
| Models.Defaults | BulkImportRestaurantApp/Models/MenuItem.cs:11-27 | A new menu item is Pending, has Title "" and is linked to no restaurant (RestaurantId 0, Restaurant null); a new restaurant is Pending with no ImagePath (Restaurant.cs lines 21-23) |
| Json.Lookup | BulkImportRestaurantApp/Factories/ImportItemFactory.cs:23 | GetProperty's member lookup: absent exactly when no member has the name; otherwise the value of the last member with that name |
| Json.GetProperty | BulkImportRestaurantApp/Factories/ImportItemFactory.cs:23 | GetProperty on a non-object fails with NotAnObject, and with MissingProperty when no member has the name; it succeeds if and only if the member exists, and returns its value |
| Json.GetString | BulkImportRestaurantApp/Factories/ImportItemFactory.cs:29-30 | GetString succeeds if and only if the value is a string or null: it gives that string, or null for JSON null; otherwise NotAString |
| Json.GetDecimal | BulkImportRestaurantApp/Factories/ImportItemFactory.cs:44 | GetDecimal succeeds if and only if the value is a number within decimal's range, and gives that number exactly; a non-number is NotANumber |
| Json.EnumerateArray | BulkImportRestaurantApp/Factories/ImportItemFactory.cs:21 | EnumerateArray succeeds if and only if the value is an array, and gives its elements in order; otherwise NotAnArray |
| Json.JsonOfString | BulkImportRestaurantApp/Factories/ImportItemFactory.cs:29-30 | The JSON value GetString reads back as the given string or null (a round trip) |
| Text.EqualsIgnoreCase | BulkImportRestaurantApp/Filters/ApprovalAuthorizationFilter.cs:54 | Ordinal ignore-case equality: same length and equal after folding position by position |
| Text.EqualsIgnoreCaseIsEquivalence | BulkImportRestaurantApp/Filters/ApprovalAuthorizationFilter.cs:54 | The ignore-case comparison is reflexive, symmetric and transitive |
| Text.IsNullOrWhiteSpace | BulkImportRestaurantApp/Filters/ApprovalAuthorizationFilter.cs:31 | A string passes if and only if it is non-null and has a character that is not white space |
| Text.IsWhiteSpace | BulkImportRestaurantApp/Filters/ApprovalAuthorizationFilter.cs:31 | char.IsWhiteSpace over the basic multilingual plane: space, tab, line feed and carriage return are white space; no digit or ASCII letter is, and folding case leaves every white-space character unchanged |
| Text.LowerCharKeepsWhiteSpace | BulkImportRestaurantApp/Factories/ImportItemFactory.cs:23 | Lower-casing maps white space to white space and everything else to non-white space |
| Text.ToLower | BulkImportRestaurantApp/Factories/ImportItemFactory.cs:23 | Lower-casing keeps the length and folds each character on its own |
| Seqs.FilterMultiset | BulkImportRestaurantApp/Repositories/ItemsDbRepository.cs:58-60 | Where keeps exactly the rows satisfying the predicate, each with its multiplicity |
| Seqs.FilterConcat | BulkImportRestaurantApp/Repositories/ItemsDbRepository.cs:58-60 | Where distributes over concatenation, so kept rows stay in source order |
| ImportItemFactory.TypeTag | BulkImportRestaurantApp/Factories/ImportItemFactory.cs:23 | The tag is read if and only if "type" exists and is a string or null. It is null exactly for a JSON null, and otherwise the lower-cased string |
| ImportItemFactory.StringProperty | BulkImportRestaurantApp/Factories/ImportItemFactory.cs:29-30 | `GetProperty(name).GetString()`: NotAnObject on a non-object, MissingProperty(name) when absent; succeeds if and only if the member is a string or null, and gives that string, or null exactly for JSON null |
| ImportItemFactory.Convert | BulkImportRestaurantApp/Factories/ImportItemFactory.cs:23-55 | One loop iteration: a failing type read is that error. An item produced is Pending and is a restaurant or a menu item, and a menu item carries the drawn Guid (the field-by-field facts are the Convert lemmas below) |
| ImportItemFactory.Items | BulkImportRestaurantApp/Factories/ImportItemFactory.cs:21-56 | The loop over the elements yields at most one item per element (order, length and errors are the Items lemmas below) |
| ImportItemFactory.Import | BulkImportRestaurantApp/Factories/ImportItemFactory.cs:15-21 | Unparsable text is Malformed, a non-array root is NotAnArray, and an array is imported element by element from the seed Guid |
| ImportItemFactory.Create | BulkImportRestaurantApp/Factories/ImportItemFactory.cs:10-58 | Unparsable text is Malformed; a non-array root is NotAnArray; otherwise the loop's result equals Items over the elements (the items, or the first record's exception) |
| ImportItemFactory.ConvertDispatchesOnType | BulkImportRestaurantApp/Factories/ImportItemFactory.cs:23-38 | A missing or non-string "type" is an error. A record yields an item if and only if its lower-cased type is exactly "restaurant" or "menuitem", and the item has the kind the tag names. Any other type, JSON null included, is skipped |
| ImportItemFactory.ConvertCopiesRestaurant | BulkImportRestaurantApp/Factories/ImportItemFactory.cs:27-32 | A restaurant's Name and OwnerEmailAddress are the record's "name" and "ownerEmailAddress" verbatim (null allowed); Status is Pending; every other property keeps its default |
| ImportItemFactory.ConvertCopiesMenuItem | BulkImportRestaurantApp/Factories/ImportItemFactory.cs:40-48 | A menu item's Id is the drawn Guid; Title and Price are copied exactly; Status is Pending; RestaurantId stays 0 and Restaurant null |
| ImportItemFactory.ConvertRestaurantErrors | BulkImportRestaurantApp/Factories/ImportItemFactory.cs:29-30 | A restaurant record without "name" fails with that missing property, then one without "ownerEmailAddress"; it converts if and only if both are strings or null |
| ImportItemFactory.ConvertMenuItemErrors | BulkImportRestaurantApp/Factories/ImportItemFactory.cs:43-44 | A menu item record without "title" or "price" fails with the missing property, and a non-numeric price fails with NotANumber; it converts if and only if title reads as a string and price as a decimal |
| ImportItemFactory.ConvertDescribes | BulkImportRestaurantApp/Factories/ImportItemFactory.cs:25-48 | A converted record yields an item exactly when it is a restaurant or menu item record; the item then matches the record field by field, and a menu item carries the Guid it was given |
| ImportItemFactory.ItemsFollowSourceOrder | BulkImportRestaurantApp/Factories/ImportItemFactory.cs:21-56 | The k-th output item comes from the k-th restaurant-or-menu-item record. So the output is as long as the number of such records, and restaurants and menu items stay interleaved as in the array, with no parents-first regrouping |
| ImportItemFactory.MenuItemGuidsInOrder | BulkImportRestaurantApp/Factories/ImportItemFactory.cs:42 | Guids are drawn in output order: each menu item's Id is the seed plus the number of menu items before it |
| ImportItemFactory.MenuItemIdsAreFresh | BulkImportRestaurantApp/Factories/ImportItemFactory.cs:42 | Given fresh NewGuid values, the menu item Ids of a batch are pairwise distinct and lie in seed .. seed + (number of menu items) - 1 |
| ImportItemFactory.ImportedItemsArePendingAndUnlinked | BulkImportRestaurantApp/Factories/ImportItemFactory.cs:27-48 | Every produced item is Pending whatever the input says, and is a restaurant or a menu item; menu items are unlinked (RestaurantId 0) and restaurants have no ImagePath |
| ImportItemFactory.ConvertFailureIgnoresGuid | BulkImportRestaurantApp/Factories/ImportItemFactory.cs:40-44 | Whether, and with which exception, a record fails does not depend on the Guid drawn for it |
| ImportItemFactory.ItemsSucceedIff | BulkImportRestaurantApp/Factories/ImportItemFactory.cs:21-56 | The import returns a list if and only if every record converts |
| ImportItemFactory.ItemsFailAtFirstBadRecord | BulkImportRestaurantApp/Factories/ImportItemFactory.cs:21-56 | When some record fails, the import returns no list; the error is the first failing record's |
| ImportItemFactory.TypeMatchFoldsCaseButDoesNotTrim | BulkImportRestaurantApp/Factories/ImportItemFactory.cs:23-25 | Examples: "RestAurant" is a restaurant record; " restaurant" and a null type are skipped |
| ImportItemFactory.PaddedTypeIsSkipped | BulkImportRestaurantApp/Factories/ImportItemFactory.cs:23-38 | For every record whose type string starts or ends with white space: it is not a restaurant or menu item record, and it is skipped without error |
| MemoryRepository.ItemsInMemoryRepository.constructor | BulkImportRestaurantApp/Repositories/ItemsInMemoryRepository.cs:14-17 | A new cache holds no "PendingItems" entry |
| MemoryRepository.ItemsInMemoryRepository.Save | BulkImportRestaurantApp/Repositories/ItemsInMemoryRepository.cs:19-24 | The slot holds exactly the saved list, replacing whatever it held (last write wins, no merge) |
| MemoryRepository.ItemsInMemoryRepository.Get | BulkImportRestaurantApp/Repositories/ItemsInMemoryRepository.cs:26-34 | Returns the staged list in saved order, or the empty list when nothing is staged; does not change the slot |
| MemoryRepository.ItemsInMemoryRepository.Clear | BulkImportRestaurantApp/Repositories/ItemsInMemoryRepository.cs:36-40 | The entry is gone afterwards, whether or not it was there |
| MemoryRepository.StagingRoundTrip | BulkImportRestaurantApp/Repositories/ItemsInMemoryRepository.cs:19-40 | The staging contract as one call sequence. Get after Save(xs) returns xs, and repeating Get changes nothing. A second Save replaces the first. Get after one or two Clears returns the empty list |
| DbRepository.RestaurantsOf | BulkImportRestaurantApp/Repositories/ItemsDbRepository.cs:28-30 | The `case Restaurant` arm: at most one row per item, one per item when all are restaurants; which items land here is exactly RoutingIsExact, and their order is RoutingConcat |
| DbRepository.MenuItemsOf | BulkImportRestaurantApp/Repositories/ItemsDbRepository.cs:32-34 | The `case MenuItem` arm: at most one row per item, one per item when all are menu items; characterised by RoutingIsExact and RoutingConcat |
| DbRepository.Numbered | BulkImportRestaurantApp/Repositories/ItemsDbRepository.cs:28-42 | The identity column at SaveChanges: the k-th added restaurant gets Id first + k with every other field kept, so the new Ids are strictly increasing and lie in [first, first + count) |
| DbRepository.RoutingConcat | BulkImportRestaurantApp/Repositories/ItemsDbRepository.cs:24-34 | Type routing distributes over concatenation, so each table receives its kind in input order |
| DbRepository.RoutingIsExact | BulkImportRestaurantApp/Repositories/ItemsDbRepository.cs:24-39 | A row is routed to a table if and only if the input has an item of that kind equal to it; with no item of a third kind, the two routed lists are together as long as the input |
| DbRepository.ApproveRowsChangeOnlyNamedStatus | BulkImportRestaurantApp/Repositories/ItemsDbRepository.cs:121-156 | After approval, a row is Approved if and only if it was named or already Approved. Only Status can change; an unnamed row is unchanged. No row is added or removed, and unknown ids touch nothing |
| DbRepository.ApproveNothingIsNoOp | BulkImportRestaurantApp/Repositories/ItemsDbRepository.cs:123-142 | A null or empty id list leaves its table unchanged |
| DbRepository.ApproveIdempotent | BulkImportRestaurantApp/Repositories/ItemsDbRepository.cs:132-151 | Approving twice with the same ids is approving once |
| DbRepository.FindRestaurant | BulkImportRestaurantApp/Repositories/ItemsDbRepository.cs:67 | The restaurant Include loads: absent if and only if no stored restaurant has the id; otherwise a stored restaurant with that id |
| DbRepository.ItemsDbRepository.constructor | BulkImportRestaurantApp/Repositories/ItemsDbRepository.cs:16-19 | An empty database whose identity column starts at 1 |
| DbRepository.ItemsDbRepository.Save | BulkImportRestaurantApp/Repositories/ItemsDbRepository.cs:22-43 | Succeeds if and only if no item is of a third kind. On success, restaurants are appended in order and numbered by the identity column, and menu items are appended in order. On failure, SaveChanges is never reached and nothing changes. Restaurant ids stay unique |
| DbRepository.ItemsDbRepository.Get | BulkImportRestaurantApp/Repositories/ItemsDbRepository.cs:45-53 | Every restaurant row, then every menu item row: the first part holds exactly the stored restaurants and the second exactly the stored menu items, each with its multiplicity, in no promised order |
| DbRepository.ItemsDbRepository.Included | BulkImportRestaurantApp/Repositories/ItemsDbRepository.cs:63-69 | The menu item rows with their Restaurant loaded by Include from the restaurant with their RestaurantId |
| DbRepository.ItemsDbRepository.GetApprovedRestaurants | BulkImportRestaurantApp/Repositories/ItemsDbRepository.cs:56-61 | Exactly the Approved restaurants, with their multiplicities |
| DbRepository.ItemsDbRepository.GetPendingRestaurants | BulkImportRestaurantApp/Repositories/ItemsDbRepository.cs:80-85 | Exactly the Pending restaurants |
| DbRepository.ItemsDbRepository.GetOwnedRestaurants | BulkImportRestaurantApp/Repositories/ItemsDbRepository.cs:87-92 | Exactly the restaurants whose owner equals the argument under exact, case-sensitive equality |
| DbRepository.ItemsDbRepository.GetRestaurantsByIds | BulkImportRestaurantApp/Repositories/ItemsDbRepository.cs:103-109 | Exactly the restaurants whose Id is listed |
| DbRepository.ItemsDbRepository.GetApprovedMenuItemsForRestaurant | BulkImportRestaurantApp/Repositories/ItemsDbRepository.cs:63-69 | Exactly the Approved menu items of that restaurant, restaurant loaded |
| DbRepository.ItemsDbRepository.GetAllApprovedMenuItems | BulkImportRestaurantApp/Repositories/ItemsDbRepository.cs:71-77 | Exactly the Approved menu items, restaurant loaded |
| DbRepository.ItemsDbRepository.GetPendingMenuItemsForRestaurant | BulkImportRestaurantApp/Repositories/ItemsDbRepository.cs:94-100 | Exactly the Pending menu items of that restaurant, restaurant loaded |
| DbRepository.ItemsDbRepository.GetMenuItemsByIds | BulkImportRestaurantApp/Repositories/ItemsDbRepository.cs:111-118 | Exactly the menu items whose Id is listed, restaurant loaded |
| DbRepository.ItemsDbRepository.Approve | BulkImportRestaurantApp/Repositories/ItemsDbRepository.cs:121-156 | The tables become the named-rows-approved images of the old tables. The identity counter is kept, and the store invariant is preserved |
| DbRepository.AbsentRestaurantIdContributesNothing | BulkImportRestaurantApp/Repositories/ItemsDbRepository.cs:103-109 | Listing an id that names no restaurant does not change the result |
| DbRepository.AbsentMenuItemIdContributesNothing | BulkImportRestaurantApp/Repositories/ItemsDbRepository.cs:111-118 | Listing an id that names no menu item does not change the result |
| DbRepository.QueryRowsAreStored | BulkImportRestaurantApp/Repositories/ItemsDbRepository.cs:56-100 | Every row a status query returns is stored and has the status, and the restaurant id, asked for |
| ApprovalFilter.RequesterEmail | BulkImportRestaurantApp/Filters/ApprovalAuthorizationFilter.cs:28-29 | The email claim when there is one, otherwise the identity name; null only when both are |
| ApprovalFilter.AdmitsIsAny | BulkImportRestaurantApp/Filters/ApprovalAuthorizationFilter.cs:53-54 | The validator test is LINQ Any: an empty list admits nobody, and one more validator admits exactly the requesters equal to it ignoring case (a null validator admits nobody) |
| ApprovalFilter.RestaurantIdsArgument | BulkImportRestaurantApp/Filters/ApprovalAuthorizationFilter.cs:38-41 | A non-empty id list comes from an int[] "restaurantIds" argument; a missing or differently typed argument is the empty list |
| ApprovalFilter.MenuItemIdsArgument | BulkImportRestaurantApp/Filters/ApprovalAuthorizationFilter.cs:39-42 | A non-empty id list comes from a Guid[] "menuItemIds" argument; a missing or differently typed argument is the empty list |
| ApprovalFilter.Authorized | BulkImportRestaurantApp/Filters/ApprovalAuthorizationFilter.cs:28-82 | The rule needs an email with a non-white-space character. With no ids requested it holds exactly when the email is usable |
| ApprovalFilter.FirstRejected | BulkImportRestaurantApp/Filters/ApprovalAuthorizationFilter.cs:51-59 | The foreach with early return stops at the first row failing the check; every earlier row passed |
| ApprovalFilter.CheckRestaurants | BulkImportRestaurantApp/Filters/ApprovalAuthorizationFilter.cs:45-60 | Continue if and only if every stored restaurant with a requested id admits the requester; otherwise Forbid |
| ApprovalFilter.CheckMenuItems | BulkImportRestaurantApp/Filters/ApprovalAuthorizationFilter.cs:63-79 | Continue if and only if every stored menu item with a requested id has a loaded restaurant whose owner is the requester, ignoring case. A fault happens only when such an item has no restaurant |
| ApprovalFilter.OnActionExecution | BulkImportRestaurantApp/Filters/ApprovalAuthorizationFilter.cs:23-83 | A null, empty or white-space email forbids whatever the ids. The action runs if and only if the all-or-nothing rule Authorized holds. A Fault needs an unresolved menu item, and a request whose restaurant check fails is always forbidden, because the restaurant loop returns before any menu item is read. The store is not changed (no modifies clause) |
| ApprovalFilter.StoredRestaurantRequestIsForbidden | BulkImportRestaurantApp/Filters/ApprovalAuthorizationFilter.cs:45-60 | A call of the filter whose restaurantIds name a stored restaurant returns Forbid, never Fault, for every requester and every menuItemIds |
| ApprovalFilter.RestaurantRowIsStored | BulkImportRestaurantApp/Filters/ApprovalAuthorizationFilter.cs:47-49 | A restaurant the query loads is a stored row with a requested id |
| ApprovalFilter.MenuItemRowIsStored | BulkImportRestaurantApp/Filters/ApprovalAuthorizationFilter.cs:65-68 | A menu item the query loads is an included stored row with a requested id |
| ApprovalFilter.RestaurantRowsCovered | BulkImportRestaurantApp/Filters/ApprovalAuthorizationFilter.cs:47-59 | When every loaded restaurant passes, every requested stored restaurant passes |
| ApprovalFilter.MenuItemRowsCovered | BulkImportRestaurantApp/Filters/ApprovalAuthorizationFilter.cs:65-78 | When every loaded menu item passes, every requested stored menu item passes |
| ApprovalFilter.NamingAStoredRestaurantForbids | BulkImportRestaurantApp/Filters/ApprovalAuthorizationFilter.cs:51-59 | Restaurants have no validators, so the restaurant check passes if and only if no stored restaurant is named |
| ApprovalFilter.MenuItemPassesForItsOwner | BulkImportRestaurantApp/Filters/ApprovalAuthorizationFilter.cs:72-73 | A menu item admits exactly its restaurant's owner, compared ignoring case; a null owner admits nobody |
| ApprovalFilter.AbsentIdsAreIgnored | BulkImportRestaurantApp/Filters/ApprovalAuthorizationFilter.cs:45-79 | Adding ids that name no stored row does not change either check |
| ApprovalFilter.EmptyRequestContinues | BulkImportRestaurantApp/Filters/ApprovalAuthorizationFilter.cs:38-42 | With a usable email, missing, mistyped or empty id arguments let the action run |
| ApprovalFilter.OneFailingMenuItemForbids | BulkImportRestaurantApp/Filters/ApprovalAuthorizationFilter.cs:70-78 | One requested menu item that does not admit the requester denies the whole request |
| ApprovalFilter.DecisionIgnoresCase | BulkImportRestaurantApp/Filters/ApprovalAuthorizationFilter.cs:53-73 | Two emails equal up to case get the same decision |
| BulkImport.BulkImportController.constructor | BulkImportRestaurantApp/Controllers/BulkImportController.cs:17-23 | The controller keeps the "memory" repository it is given |
| BulkImport.BulkImportController.BulkImport | BulkImportRestaurantApp/Controllers/BulkImportController.cs:33-53 | A missing file redisplays the form and nothing is staged. A parse failure raises before staging, so the previous batch survives. Otherwise exactly the parser's list is staged and previewed |
| BulkImport.BulkImportController.Commit | BulkImportRestaurantApp/Controllers/BulkImportController.cs:56-78 | Without a zip: BadRequest, and neither store changes. With one: the restaurant table gains the staged restaurants, numbered from the identity counter, and the menu item table gains the staged menu items, both in stage order. The counter advances by the number of restaurants, the stage is cleared, and the action redirects. A failing Save changes neither store. The zip is never read |
| BulkImport.ImportedItemsCanBeCommitted | BulkImportRestaurantApp/Controllers/BulkImportController.cs:66-72 | A parsed batch never contains an item the database Save rejects |
| BulkImport.EmptyStageCommitsNothing | BulkImportRestaurantApp/Controllers/BulkImportController.cs:66-75 | Commit with an archive and an empty stage redirects, leaves both tables and the identity counter unchanged, and leaves the stage empty |
| BulkImport.RoutedRowsArePendingAndUnlinked | BulkImportRestaurantApp/Repositories/ItemsDbRepository.cs:24-34 | When every item is Pending and unlinked, so is every row routed to either table |
| BulkImport.AppendedRowsArePendingAndUnlinked | BulkImportRestaurantApp/Repositories/ItemsDbRepository.cs:24-42 | Rows appended after the stored ones, the restaurants renumbered, keep Pending status, no ImagePath and RestaurantId 0 |
| BulkImport.ImportThenCommit | BulkImportRestaurantApp/Controllers/BulkImportController.cs:33-78 | Import followed by commit: the database gains the batch's restaurants (numbered) and menu items in batch order, and the identity counter advances by the number of restaurants. All are Pending, no restaurant has an ImagePath, no menu item is linked, and the stage ends empty |
| ItemsController.Catalog | BulkImportRestaurantApp/Controllers/ItemsController.cs:24-53 | "restaurants" (the default) shows exactly the approved restaurants. Any other view with a restaurant id shows that restaurant's approved menu items; without one, all approved menu items |
| Models.AsRestaurantItems | BulkImportRestaurantApp/Controllers/ItemsController.cs:30-31 | A restaurant list seen as items: the same rows, in order, each a restaurant |
| Models.AsMenuItems | BulkImportRestaurantApp/Controllers/ItemsController.cs:38-47 | A menu item list seen as items: the same rows, in order, each a menu item |
| ItemsController.CatalogShowsOnlyApproved | BulkImportRestaurantApp/Controllers/ItemsController.cs:28-49 | The catalog never shows a Pending item |
| ItemsController.ViewMatchIsCaseSensitive | BulkImportRestaurantApp/Controllers/ItemsController.cs:24-28 | "Restaurants" takes the menu item branch; the defaults mean the restaurant view |
| VerificationController.CurrentUserInfo | BulkImportRestaurantApp/Controllers/VerificationController.cs:27-36 | The email is the user's, or "" without a user or email. isAdmin holds if and only if an admin email is configured and equals it ignoring case |
| VerificationController.NoConfiguredAdminMeansNoAdmin | BulkImportRestaurantApp/Controllers/VerificationController.cs:32-33 | With no admin email configured nobody is admin |
| VerificationController.Pending | BulkImportRestaurantApp/Controllers/VerificationController.cs:39-58 | Only the admin sees pending restaurants; everyone else gets an empty list. The menu items always come from the owner query for the user's own email |
| VerificationController.ApproveRestaurant | BulkImportRestaurantApp/Controllers/VerificationController.cs:62-74 | A non-admin is forbidden without a repository call. For the admin, NotFound if and only if the repository reports failure, otherwise a redirect |
| VerificationController.ApproveMenuItem | BulkImportRestaurantApp/Controllers/VerificationController.cs:78-87 | The repository is always called. Forbidden if and only if it returns false, otherwise a redirect; never NotFound |

## Left out

- JSON text parsing (`JsonDocument.Parse`) is library code. The model starts from a parsed `Json` value, and any text Parse rejects, empty or white-space text included, is the single error `Malformed`.
- BulkImportController.BulkImport: reading the uploaded file's stream is ASP.NET plumbing. The file is given as its parsed document, or None when the text is unparsable.
- Restaurant.GetValidators returns an empty list; Restaurant.cs line 34 is a TODO to make the site administrator a validator. The model keeps the empty list, so the filter refuses any request that names a stored restaurant.
- `Guid.NewGuid()` is modelled as a counter starting at a seed. Randomness is left out, and the model assumes NewGuid never repeats. The initializer's Guid, which the object initializer overwrites, is not drawn separately.
- String case folding is ASCII only. Culture rules and non-ASCII case pairs of `ToLower` and `OrdinalIgnoreCase` are not modelled. `char.IsWhiteSpace` is modelled for characters of the basic multilingual plane.
- `decimal` is modelled as an exact `real` within ±(2^96 − 1). Its 28-digit scale limit and the `decimal(18, 2)` rounding of the database column are left out.
- Entity Framework Core and SQL Server are modelled as two in-memory sequences. The following are left out:
  - change tracking, and the aliasing between loaded entities and stored rows;
  - the foreign-key constraint on RestaurantId, so a menu item with RestaurantId 0 is stored as it is;
  - uniqueness of the Guid key;
  - identity gaps;
  - SQL collation;
  - the result order of queries without OrderBy, Get's two parts included. Results are stated as multisets. The model's functions return rows in table order, which is one of the orders the database may choose;
  - the column constraints: Name, OwnerEmailAddress and Title are required (NOT NULL) and have a maximum length (50, 150 and 150). SaveChanges rejects a null name or owner, or a too-long title, that the factory lets through; the model's Save accepts them;
  - an explicit non-zero restaurant Id. The identity column rejects one on insert, but the model's Save silently renumbers every added restaurant.
- DbRepository.FindRestaurant returns the first stored restaurant with the id. The store invariant keeps restaurant ids unique, so this is the only one.
- ApprovalFilter.OnActionExecution has a third outcome, `Fault`. It stands for the NullReferenceException that `MenuItem.GetValidators` raises when Include found no restaurant; the foreign key makes this unreachable in the database.
- Asynchrony (`Task`, `await`) and concurrent requests sharing the memory cache are left out. Every operation is one sequential call.
- `IMemoryCache` internals (expiry, eviction, sharing across requests) are left out. The cache slot is a plain field.
- The `IItemsRepository` interface declares synchronous `Get`, `Save` and `Clear`, while the repositories define `GetAsync`, `SaveAsync` and `ClearAsync`. The model gives each repository the behaviour of its `*Async` method under the interface's name.
- Dependency injection wiring is left out. The Commit action's `itemsRepos` is taken to be the controller's own "memory" repository. Its `db` argument is the `ItemsDbRepository` passed in, even though the key "db" is not the registered key "database". The configured admin email is a parameter instead of a global setting.
- BulkImport.BulkImportController.Commit: when the database Save throws, the action reports `CommitFailed`, and neither store has changed. Saving is all-or-nothing because SaveChanges is never reached.
- The uploaded archive: Commit only checks that it is present and never opens it. No code sets ImagePath.
- The repository methods that VerificationController calls are not defined on ItemsDbRepository, so their answers are parameters of the model. These methods are GetPendingRestaurantsForAdminAsync, GetPendingMenuItemsForOwnerAsync, ApproveRestaurantAsync and ApproveMenuItemAsync.
- Views, ViewBag writes, model-state errors, anti-forgery tokens and claims lookup are left out. Action results are enumerations, and the user and their claims are inputs.
- `ItemStatus` is not part of this model's source files. It is taken to have exactly the two values Pending and Approved.
