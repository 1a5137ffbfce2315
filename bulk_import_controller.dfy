/** BulkImportController: the upload action parses and stages a batch, the commit action
    moves the staged batch into the database and empties the stage. */
module BulkImport {
  import opened Wrappers
  import opened Json
  import opened Models
  import opened ImportItemFactory
  import opened MemoryRepository
  import opened DbRepository

  /** An uploaded JSON file; document is None when its text is not valid JSON. */
  datatype JsonFile = JsonFile(document: Option<Json>)

  /** An uploaded archive; its bytes are never read. */
  datatype ZipFile = ZipFile(content: seq<bv8>)

  /** The views BulkImport returns: the upload form again with "Upload a JSON file.", the
      exception Create raised, or the Preview view over the parsed items. */
  datatype ImportView = UploadRequired | ImportFailed(error: JsonError) | Preview(items: seq<Item>)

  /** BadRequest("Zip file is required."), the redirect to Items/Index, or the exception
      the database Save raised. */
  datatype CommitView = BadRequest | RedirectToItems | CommitFailed

  class BulkImportController {
    /** The "memory" repository; the action parameter itemsRepos resolves to this same store. */
    const memoryRepo: ItemsInMemoryRepository

    constructor (memoryRepo: ItemsInMemoryRepository)
      ensures this.memoryRepo == memoryRepo
    {
      this.memoryRepo := memoryRepo;
    }

    /** POST BulkImport. seed is the first Guid Guid.NewGuid() will hand out. */
    method BulkImport(jsonFile: Option<JsonFile>, seed: Guid) returns (view: ImportView)
      modifies memoryRepo
      ensures jsonFile.None? ==> view == UploadRequired && unchanged(memoryRepo)
      ensures jsonFile.Some? ==> match Import(jsonFile.value.document, seed)
        case Err(e) => view == ImportFailed(e) && unchanged(memoryRepo)
        case Ok(items) => view == Preview(items) && memoryRepo.pendingItems == Some(items)
    {
      if jsonFile.None? {
        return UploadRequired;
      }
      var parsed := Create(jsonFile.value.document, seed);
      if parsed.Err? {
        return ImportFailed(parsed.error);
      }
      memoryRepo.Save(parsed.value);
      return Preview(parsed.value);
    }

    /** POST Commit: the staged items go to the database through its Save, then the stage
        is cleared. The archive is not opened. */
    method Commit(zipFile: Option<ZipFile>, db: ItemsDbRepository) returns (view: CommitView)
      requires db.Valid()
      modifies memoryRepo, db
      ensures zipFile.None? ==> view == BadRequest && unchanged(memoryRepo) && unchanged(db)
      ensures zipFile.Some? ==> var staged := old(memoryRepo.Staged());
        if forall i :: 0 <= i < |staged| ==> !staged[i].Other? then
          && view == RedirectToItems
          && memoryRepo.pendingItems == None
          && db.restaurants == old(db.restaurants) + Numbered(RestaurantsOf(staged), old(db.nextRestaurantId))
          && db.menuItems == old(db.menuItems) + MenuItemsOf(staged)
          && db.nextRestaurantId == old(db.nextRestaurantId) + |RestaurantsOf(staged)|
        else
          view == CommitFailed && unchanged(memoryRepo) && unchanged(db)
      ensures db.Valid()
    {
      if zipFile.None? {
        return BadRequest;
      }
      var items := memoryRepo.Get();
      assert items == old(memoryRepo.Staged());
      var saved := db.Save(items);
      if !saved {
        return CommitFailed;
      }
      memoryRepo.Clear();
      return RedirectToItems;
    }
  }

  /** Items built by the import are always accepted by the database Save: none is of a
      third kind. */
  lemma ImportedItemsCanBeCommitted(document: Option<Json>, seed: Guid)
    requires Import(document, seed).Ok?
    ensures var items := Import(document, seed).value;
      forall i :: 0 <= i < |items| ==> !items[i].Other?
  {
    var es := document.value.elements;
    ImportedItemsArePendingAndUnlinked(es, seed);
  }

  /** Committing an empty stage, with an archive, redirects and leaves both tables and the
      identity counter as they were; the stage stays empty. */
  method EmptyStageCommitsNothing(controller: BulkImportController, zip: ZipFile, db: ItemsDbRepository)
    returns (view: CommitView)
    requires db.Valid()
    requires controller.memoryRepo.Staged() == []
    modifies controller.memoryRepo, db
    ensures view == RedirectToItems
    ensures db.restaurants == old(db.restaurants) && db.menuItems == old(db.menuItems)
    ensures db.nextRestaurantId == old(db.nextRestaurantId)
    ensures controller.memoryRepo.pendingItems == None
  {
    assert RestaurantsOf([]) == [] && MenuItemsOf([]) == [];
    view := controller.Commit(Some(zip), db);
    assert old(db.restaurants) + Numbered([], old(db.nextRestaurantId)) == old(db.restaurants);
    assert old(db.menuItems) + [] == old(db.menuItems);
  }

  /** Import, stage and commit in a row: the database gains the batch's restaurants (numbered
      by the identity column) and menu items in batch order, all Pending and without an
      image path, the stage ends empty, and the archive's content plays no part. */
  method ImportThenCommit(controller: BulkImportController, db: ItemsDbRepository, file: JsonFile, zip: ZipFile, seed: Guid)
    returns (preview: ImportView, committed: CommitView)
    requires db.Valid()
    requires Import(file.document, seed).Ok?
    modifies controller.memoryRepo, db
    ensures var items := Import(file.document, seed).value;
      && preview == Preview(items)
      && committed == RedirectToItems
      && controller.memoryRepo.pendingItems == None
      && db.restaurants == old(db.restaurants) + Numbered(RestaurantsOf(items), old(db.nextRestaurantId))
      && db.menuItems == old(db.menuItems) + MenuItemsOf(items)
      && db.nextRestaurantId == old(db.nextRestaurantId) + |RestaurantsOf(items)|
      && (forall i :: |old(db.restaurants)| <= i < |db.restaurants| ==>
            db.restaurants[i].status == Pending && db.restaurants[i].imagePath == None)
      && (forall i :: |old(db.menuItems)| <= i < |db.menuItems| ==>
            db.menuItems[i].status == Pending && db.menuItems[i].restaurantId == 0)
  {
    var items := Import(file.document, seed).value;
    ImportedItemsCanBeCommitted(file.document, seed);
    ImportedItemsArePendingAndUnlinked(file.document.value.elements, seed);
    RoutedRowsArePendingAndUnlinked(items);
    preview := controller.BulkImport(Some(file), seed);
    committed := controller.Commit(Some(zip), db);
    AppendedRowsArePendingAndUnlinked(old(db.restaurants), RestaurantsOf(items), old(db.nextRestaurantId), db.restaurants,
                                      old(db.menuItems), MenuItemsOf(items), db.menuItems);
  }

  /** Rows appended after the stored ones keep what the batch's rows satisfy; the restaurants
      are renumbered, which changes neither Status nor ImagePath. */
  lemma AppendedRowsArePendingAndUnlinked(oldRs: seq<Restaurant>, rs: seq<Restaurant>, first: int, newRs: seq<Restaurant>,
                                          oldMs: seq<MenuItem>, ms: seq<MenuItem>, newMs: seq<MenuItem>)
    requires newRs == oldRs + Numbered(rs, first) && newMs == oldMs + ms
    requires forall x :: x in rs ==> x.status == Pending && x.imagePath == None
    requires forall y :: y in ms ==> y.status == Pending && y.restaurantId == 0
    ensures forall i :: |oldRs| <= i < |newRs| ==> newRs[i].status == Pending && newRs[i].imagePath == None
    ensures forall i :: |oldMs| <= i < |newMs| ==> newMs[i].status == Pending && newMs[i].restaurantId == 0
  {
    forall i | |oldRs| <= i < |newRs|
      ensures newRs[i].status == Pending && newRs[i].imagePath == None
    {
      var k := i - |oldRs|;
      assert newRs[i] == Numbered(rs, first)[k];
      assert rs[k] in rs;
    }
    forall i | |oldMs| <= i < |newMs|
      ensures newMs[i].status == Pending && newMs[i].restaurantId == 0
    {
      var k := i - |oldMs|;
      assert newMs[i] == ms[k];
      assert ms[k] in ms;
    }
  }

  /** Routing keeps what every imported item satisfies: the rows Save adds are Pending,
      restaurants without an image path, menu items unlinked. */
  lemma RoutedRowsArePendingAndUnlinked(items: seq<Item>)
    requires forall i :: 0 <= i < |items| ==>
      && items[i].Status() == Pending
      && (items[i].M? ==> items[i].menuItem.restaurantId == 0)
      && (items[i].R? ==> items[i].restaurant.imagePath == None)
    ensures forall x :: x in RestaurantsOf(items) ==> x.status == Pending && x.imagePath == None
    ensures forall y :: y in MenuItemsOf(items) ==> y.status == Pending && y.restaurantId == 0
  {
    RoutingIsExact(items);
  }
}
