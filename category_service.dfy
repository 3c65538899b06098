/**
 * The category repository. Categories are global (not per ledger); system
 * categories can be neither renamed nor deleted, and a category that
 * transactions still refer to cannot be deleted.
 */
module CategoryService {
  import opened Wrappers
  import opened Types
  import opened Tables
  import opened Sorting
  import opened Database

  // ------------------------------------------------------------ stored rows

  /** A categories row as the store returns it: the flags are 0/1 numbers. */
  datatype RawCategory = RawCategory(
    id: string,
    name: string,
    icon: string,
    kind: TransactionType,
    isSystem: int,
    isActive: int,
    sortOrder: int,
    deprecated: int,
    createdAt: string,
    updatedAt: string)

  /** Reads the flags back as booleans (any non-zero number is true). */
  function ToCategory(raw: RawCategory): (c: Category)
    ensures c.id == raw.id && c.sortOrder == raw.sortOrder
  {
    Category(raw.id, raw.name, raw.icon, raw.kind,
      FlagToBool(raw.isSystem), FlagToBool(raw.isActive), raw.sortOrder,
      FlagToBool(raw.deprecated), raw.createdAt, raw.updatedAt)
  }

  /** The row a category is written as. */
  function ToRaw(c: Category): (raw: RawCategory)
    ensures raw.isSystem in {0, 1} && raw.isActive in {0, 1} && raw.deprecated in {0, 1}
  {
    RawCategory(c.id, c.name, c.icon, c.kind,
      BoolToFlag(c.isSystem), BoolToFlag(c.isActive), c.sortOrder,
      BoolToFlag(c.deprecated), c.createdAt, c.updatedAt)
  }

  /** Writing a category and reading it back yields the same category. */
  lemma RawRoundTrip(c: Category, raw: RawCategory)
    ensures ToCategory(ToRaw(c)) == c
    ensures raw.isSystem in {0, 1} && raw.isActive in {0, 1} && raw.deprecated in {0, 1} ==> ToRaw(ToCategory(raw)) == raw
  {
  }

  // ------------------------------------------------------------ listings

  predicate Listable(c: Category, kind: TransactionType) {
    c.kind == kind && !c.deprecated
  }

  predicate Selectable(c: Category, kind: TransactionType) {
    Listable(c, kind) && c.isActive
  }

  /** `ORDER BY sort_order ASC` */
  predicate BySortOrder(a: Category, b: Category) {
    a.sortOrder <= b.sortOrder
  }

  /** `ORDER BY is_active DESC, sort_order ASC` */
  predicate ActiveFirst(a: Category, b: Category) {
    (a.isActive && !b.isActive) || (a.isActive == b.isActive && a.sortOrder <= b.sortOrder)
  }

  lemma OrdersArePreorders()
    ensures TotalPreorder(BySortOrder)
    ensures TotalPreorder(ActiveFirst)
  {
  }

  /** The categories offered when recording: of the type, active, not deprecated, by sort order. */
  function ActiveCategories(cats: seq<Category>, kind: TransactionType): (r: seq<Category>)
    ensures forall c :: c in r <==> c in cats && Selectable(c, kind)
    ensures multiset(r) == multiset(Filter(cats, c => Selectable(c, kind)))
    ensures forall i, j :: 0 <= i < j < |r| ==> r[i].sortOrder <= r[j].sortOrder
  {
    OrdersArePreorders();
    SortBy(Filter(cats, c => Selectable(c, kind)), BySortOrder)
  }

  /** The categories on the management screen: of the type, not deprecated, active ones first. */
  function ManagedCategories(cats: seq<Category>, kind: TransactionType): (r: seq<Category>)
    ensures forall c :: c in r <==> c in cats && Listable(c, kind)
    ensures multiset(r) == multiset(Filter(cats, c => Listable(c, kind)))
    ensures forall i, j :: 0 <= i < j < |r| && r[j].isActive ==> r[i].isActive
    ensures forall i, j :: 0 <= i < j < |r| && r[i].isActive == r[j].isActive ==> r[i].sortOrder <= r[j].sortOrder
  {
    OrdersArePreorders();
    SortBy(Filter(cats, c => Listable(c, kind)), ActiveFirst)
  }

  function GetActiveCategories(db: Store, kind: TransactionType): (r: Result<seq<Category>, StoreError>)
    reads db
    ensures r.Err? <==> !db.isOpen
    ensures r.Ok? ==> r.value == ActiveCategories(db.categories, kind)
  {
    if !db.isOpen then Err(NotInitialized) else Ok(ActiveCategories(db.categories, kind))
  }

  function GetAllCategories(db: Store, kind: TransactionType): (r: Result<seq<Category>, StoreError>)
    reads db
    ensures r.Err? <==> !db.isOpen
    ensures r.Ok? ==> r.value == ManagedCategories(db.categories, kind)
  {
    if !db.isOpen then Err(NotInitialized) else Ok(ManagedCategories(db.categories, kind))
  }

  /** Finds a category by id, deprecated ones included. */
  function GetCategoryById(db: Store, id: string): (r: Result<Option<Category>, StoreError>)
    reads db
    ensures r.Err? <==> !db.isOpen
    ensures r.Ok? && r.value.Some? ==> r.value.value in db.categories && r.value.value.id == id
    ensures r.Ok? && r.value.None? ==> forall c :: c in db.categories ==> c.id != id
  {
    if !db.isOpen then Err(NotInitialized) else Ok(Lookup(db.categories, CategoryId, id))
  }

  // ------------------------------------------------------------ create

  /** `MAX(sort_order)` over the categories of one type, None when there are none. */
  function MaxSortOrder(cats: seq<Category>, kind: TransactionType): (r: Option<int>)
    ensures r.None? <==> forall c :: c in cats ==> c.kind != kind
    ensures r.Some? ==> exists c :: c in cats && c.kind == kind && c.sortOrder == r.value
    ensures r.Some? ==> forall c :: c in cats && c.kind == kind ==> c.sortOrder <= r.value
  {
    if cats == [] then None
    else
      var last := cats[|cats| - 1];
      var init := cats[..|cats| - 1];
      assert cats == init + [last];
      var m := MaxSortOrder(init, kind);
      if last.kind != kind then m
      else if m.None? || m.value < last.sortOrder then Some(last.sortOrder)
      else m
  }

  /** The sort order a new category gets: one past the largest of its type, 0 for the first. */
  function NextSortOrder(cats: seq<Category>, kind: TransactionType): (n: int)
    ensures forall c :: c in cats && c.kind == kind ==> c.sortOrder < n
    ensures (forall c :: c in cats ==> c.kind != kind) ==> n == 0
    ensures (exists c :: c in cats && c.kind == kind) ==> exists c :: c in cats && c.kind == kind && c.sortOrder == n - 1
  {
    match MaxSortOrder(cats, kind)
    case None => 0
    case Some(m) => m + 1
  }

  /**
   * Adds a custom category. The caller's system flag, deprecated flag and sort
   * order are not used: the row is custom, not deprecated, and placed last.
   */
  method CreateCategory(db: Store, input: CreateCategoryInput, id: string, now: string)
    returns (r: Result<Category, StoreError>)
    requires db.Valid()
    requires forall c :: c in db.categories ==> c.id != id
    modifies db`categories
    ensures db.Valid()
    ensures !old(db.isOpen) ==> r == Err(NotInitialized) && db.categories == old(db.categories)
    ensures old(db.isOpen) ==> r.Ok? && db.categories == old(db.categories) + [r.value]
    ensures r.Ok? ==> && r.value.id == id && r.value.name == input.name && r.value.icon == input.icon
                      && r.value.kind == input.kind && r.value.isActive == input.isActive
                      && !r.value.isSystem && !r.value.deprecated
                      && r.value.sortOrder == NextSortOrder(old(db.categories), input.kind)
                      && r.value.createdAt == now && r.value.updatedAt == now
  {
    if !db.isOpen {
      return Err(NotInitialized);
    }
    var sortOrder := NextSortOrder(db.categories, input.kind);
    var row := Category(id, input.name, input.icon, input.kind, false, input.isActive, sortOrder, false, now, now);
    AppendKeepsUnique(db.categories, CategoryId, row);
    db.categories := db.categories + [row];
    return Ok(row);
  }

  // ------------------------------------------------------------ update

  /** Whether an update names any field the category accepts. */
  predicate ChangesSomething(c: Category, input: UpdateCategoryInput) {
    || (!c.isSystem && (input.name.Some? || input.icon.Some?))
    || input.isActive.Some?
    || input.sortOrder.Some?
  }

  /**
   * The category after an update: a system category accepts only the active
   * flag and the sort order, a custom one also its name and icon; type,
   * system and deprecated flags never change.
   */
  function PatchCategory(c: Category, input: UpdateCategoryInput, now: string): (r: Category)
    ensures r.id == c.id && r.kind == c.kind && r.isSystem == c.isSystem
    ensures r.deprecated == c.deprecated && r.createdAt == c.createdAt
    ensures c.isSystem ==> r.name == c.name && r.icon == c.icon
    ensures !c.isSystem ==> r.name == input.name.GetOr(c.name) && r.icon == input.icon.GetOr(c.icon)
    ensures r.isActive == input.isActive.GetOr(c.isActive)
    ensures r.sortOrder == input.sortOrder.GetOr(c.sortOrder)
    ensures !ChangesSomething(c, input) ==> r == c
    ensures ChangesSomething(c, input) ==> r.updatedAt == now
  {
    if !ChangesSomething(c, input) then c
    else c.(
      name := if c.isSystem then c.name else input.name.GetOr(c.name),
      icon := if c.isSystem then c.icon else input.icon.GetOr(c.icon),
      isActive := input.isActive.GetOr(c.isActive),
      sortOrder := input.sortOrder.GetOr(c.sortOrder),
      updatedAt := now)
  }

  /** Applying the same update twice is applying it once (with the later time). */
  lemma PatchIdempotent(c: Category, input: UpdateCategoryInput, now1: string, now2: string)
    ensures PatchCategory(PatchCategory(c, input, now1), input, now2) == PatchCategory(c, input, now2)
  {
  }

  /** Every row with the key `id` is replaced by `f` of itself; the others stay. */
  ghost predicate UpdatedWhere(before: seq<Category>, after: seq<Category>, id: string, f: Category -> Category) {
    && |after| == |before|
    && forall i :: 0 <= i < |before| ==> after[i] == if before[i].id == id then f(before[i]) else before[i]
  }

  /** Replaces the row at `k` and proves that this is the `UPDATE ... WHERE id = ?` of the unique key. */
  lemma ReplaceIsUpdateWhere(cats: seq<Category>, k: nat, f: Category -> Category)
    requires UniqueKeys(cats, CategoryId) && k < |cats|
    requires f(cats[k]).id == cats[k].id
    ensures UpdatedWhere(cats, cats[k := f(cats[k])], cats[k].id, f)
    ensures UniqueKeys(cats[k := f(cats[k])], CategoryId)
  {
    ReplaceKeepsUnique(cats, CategoryId, k, f(cats[k]));
  }

  /**
   * Builds the `SET` list of an update: name and icon only for a custom
   * category, the active flag and sort order for any, and `updated_at` when
   * anything was set. Returns the row as the update writes it.
   */
  method CollectUpdates(category: Category, input: UpdateCategoryInput, now: string)
    returns (row: Category, changed: bool)
    ensures changed == ChangesSomething(category, input)
    ensures changed ==> row == PatchCategory(category, input, now)
  {
    row := category;
    changed := false;
    if !category.isSystem {
      if input.name.Some? {
        row := row.(name := input.name.value);
        changed := true;
      }
      if input.icon.Some? {
        row := row.(icon := input.icon.value);
        changed := true;
      }
    }
    if input.isActive.Some? {
      row := row.(isActive := input.isActive.value);
      changed := true;
    }
    if input.sortOrder.Some? {
      row := row.(sortOrder := input.sortOrder.value);
      changed := true;
    }
    if changed {
      row := row.(updatedAt := now);
    }
  }

  /**
   * Updates a category and returns it as stored afterwards; an unknown id gives
   * None, and an update with no accepted field leaves the row untouched.
   */
  method UpdateCategory(db: Store, id: string, input: UpdateCategoryInput, now: string)
    returns (r: Result<Option<Category>, StoreError>)
    requires db.Valid()
    modifies db`categories
    ensures db.Valid()
    ensures !old(db.isOpen) ==> r == Err(NotInitialized) && db.categories == old(db.categories)
    ensures old(db.isOpen) ==> UpdatedWhere(old(db.categories), db.categories, id, c => PatchCategory(c, input, now))
    ensures old(db.isOpen) ==> r == Ok(Lookup(db.categories, CategoryId, id))
    ensures old(db.isOpen) ==> match Lookup(old(db.categories), CategoryId, id)
                                case None => r == Ok(None)
                                case Some(c) => r == Ok(Some(PatchCategory(c, input, now)))
  {
    if !db.isOpen {
      return Err(NotInitialized);
    }
    var found := IndexOf(db.categories, CategoryId, id);
    if found.None? {
      return Ok(None);
    }
    var k := found.value;
    var category := db.categories[k];
    var row, changed := CollectUpdates(category, input, now);
    if !changed {
      LookupUnique(db.categories, CategoryId, k);
      return Ok(Some(category));
    }
    ReplaceIsUpdateWhere(db.categories, k, c => PatchCategory(c, input, now));
    db.categories := db.categories[k := row];
    LookupUnique(db.categories, CategoryId, k);
    return Ok(Some(row));
  }

  /** The update that flips a category's active flag. */
  function ToggleInput(c: Category): UpdateCategoryInput {
    UpdateCategoryInput(None, None, None, None, Some(!c.isActive), None, None)
  }

  /** Toggling twice restores every field but `updated_at`. */
  lemma ToggleTwice(c: Category, now1: string, now2: string)
    ensures var once := PatchCategory(c, ToggleInput(c), now1);
            PatchCategory(once, ToggleInput(once), now2) == c.(updatedAt := now2)
    ensures PatchCategory(c, ToggleInput(c), now1).isActive != c.isActive
  {
  }

  /** Flips the active flag of a category; an unknown id gives None. */
  method ToggleCategoryStatus(db: Store, id: string, now: string)
    returns (r: Result<Option<Category>, StoreError>)
    requires db.Valid()
    modifies db`categories
    ensures db.Valid()
    ensures !old(db.isOpen) ==> r == Err(NotInitialized) && db.categories == old(db.categories)
    ensures old(db.isOpen) ==> match Lookup(old(db.categories), CategoryId, id)
                                case None => r == Ok(None) && db.categories == old(db.categories)
                                case Some(c) => r == Ok(Some(PatchCategory(c, ToggleInput(c), now)))
                                                && UpdatedWhere(old(db.categories), db.categories, id, c' => PatchCategory(c', ToggleInput(c), now))
  {
    var category := GetCategoryById(db, id);
    if category.Err? {
      return Err(category.error);
    }
    if category.value.None? {
      return Ok(None);
    }
    var c := category.value.value;
    r := UpdateCategory(db, id, ToggleInput(c), now);
  }

  // ------------------------------------------------------------ reorder

  /** Position of the last occurrence of `x`. */
  function LastIndexOf(ids: seq<string>, x: string): (r: Option<nat>)
    ensures r.Some? ==> r.value < |ids| && ids[r.value] == x
    ensures r.Some? ==> forall j :: r.value < j < |ids| ==> ids[j] != x
    ensures r.None? <==> x !in ids
  {
    if ids == [] then None
    else if ids[|ids| - 1] == x then Some(|ids| - 1)
    else LastIndexOf(ids[..|ids| - 1], x)
  }

  /** A row after the reorder: its last position in the list, or unchanged when absent. */
  function ReorderedRow(c: Category, ids: seq<string>, now: string): Category {
    match LastIndexOf(ids, c.id)
    case None => c
    case Some(k) => c.(sortOrder := k, updatedAt := now)
  }

  /** The categories table after `UPDATE ... SET sort_order = index` for every listed id in turn. */
  function Reordered(cats: seq<Category>, ids: seq<string>, now: string): (r: seq<Category>)
    ensures |r| == |cats|
    ensures forall i :: 0 <= i < |cats| ==> r[i].id == cats[i].id
    ensures forall i :: 0 <= i < |cats| && cats[i].id !in ids ==> r[i] == cats[i]
    ensures forall i :: 0 <= i < |cats| && cats[i].id in ids ==>
      && r[i] == cats[i].(sortOrder := r[i].sortOrder, updatedAt := now)
      && 0 <= r[i].sortOrder < |ids| && ids[r[i].sortOrder] == cats[i].id
      && forall j :: r[i].sortOrder < j < |ids| ==> ids[j] != cats[i].id
  {
    seq(|cats|, i requires 0 <= i < |cats| => ReorderedRow(cats[i], ids, now))
  }

  /** With a list of distinct ids, each listed category's sort order is its position in the list. */
  lemma ReorderFollowsList(cats: seq<Category>, ids: seq<string>, now: string, k: nat)
    requires forall a, b :: 0 <= a < b < |ids| ==> ids[a] != ids[b]
    requires k < |ids|
    ensures forall c :: c in Reordered(cats, ids, now) && c.id == ids[k] ==> c.sortOrder == k
  {
    var r := Reordered(cats, ids, now);
    forall c | c in r && c.id == ids[k] ensures c.sortOrder == k {
      var i :| 0 <= i < |r| && r[i] == c;
      assert ids[r[i].sortOrder] == ids[k];
    }
  }

  lemma LastIndexOfExtend(ids: seq<string>, i: nat, x: string)
    requires i < |ids|
    ensures LastIndexOf(ids[..i + 1], x) == if ids[i] == x then Some(i) else LastIndexOf(ids[..i], x)
  {
    assert ids[..i + 1][..i] == ids[..i];
  }

  /** `UPDATE categories SET sort_order = ?, updated_at = ? WHERE id = ?` */
  function SetSortOrder(cats: seq<Category>, id: string, index: int, now: string): (r: seq<Category>)
    ensures |r| == |cats|
    ensures forall j :: 0 <= j < |cats| ==> r[j] == if cats[j].id == id then cats[j].(sortOrder := index, updatedAt := now) else cats[j]
    ensures UniqueKeys(cats, CategoryId) ==> UniqueKeys(r, CategoryId)
  {
    var r := seq(|cats|, j requires 0 <= j < |cats| => if cats[j].id == id then cats[j].(sortOrder := index, updatedAt := now) else cats[j]);
    assert forall j :: 0 <= j < |cats| ==> CategoryId(r[j]) == CategoryId(cats[j]);
    r
  }

  /** Gives each listed category its position in the list as sort order. */
  method ReorderCategories(db: Store, orderedIds: seq<string>, now: string)
    returns (r: Result<(), StoreError>)
    requires db.Valid()
    modifies db`categories
    ensures db.Valid()
    ensures !old(db.isOpen) ==> r == Err(NotInitialized) && db.categories == old(db.categories)
    ensures old(db.isOpen) ==> r == Ok(()) && db.categories == Reordered(old(db.categories), orderedIds, now)
  {
    if !db.isOpen {
      return Err(NotInitialized);
    }
    ghost var before := db.categories;
    var index := 0;
    while index < |orderedIds|
      invariant 0 <= index <= |orderedIds|
      invariant db.Valid() && db.isOpen
      invariant |db.categories| == |before|
      invariant forall i :: 0 <= i < |before| ==> db.categories[i] == ReorderedRow(before[i], orderedIds[..index], now)
    {
      var id := orderedIds[index];
      forall i | 0 <= i < |before|
        ensures ReorderedRow(before[i], orderedIds[..index + 1], now)
             == if before[i].id == id then before[i].(sortOrder := index, updatedAt := now)
                else ReorderedRow(before[i], orderedIds[..index], now)
      {
        LastIndexOfExtend(orderedIds, index, before[i].id);
      }
      db.categories := SetSortOrder(db.categories, id, index, now);
      index := index + 1;
    }
    assert orderedIds[..|orderedIds|] == orderedIds;
    r := Ok(());
  }

  // ------------------------------------------------------------ delete

  /** `SELECT COUNT(*) FROM transactions WHERE category_id = ?` */
  function CategoryUsage(txs: seq<Transaction>, id: string): (n: nat)
    ensures n == 0 <==> forall t :: t in txs ==> t.categoryId != id
  {
    Count(txs, (t: Transaction) => t.categoryId == id)
  }

  /**
   * Deletes a custom category that no transaction uses. An unknown id gives
   * false; a system category and a category in use are refused with an error.
   */
  method DeleteCategory(db: Store, id: string) returns (r: Result<bool, StoreError>)
    requires db.Valid()
    modifies db`categories
    ensures db.Valid()
    ensures r != Ok(true) ==> db.categories == old(db.categories)
    ensures !old(db.isOpen) ==> r == Err(NotInitialized)
    ensures old(db.isOpen) ==> match Lookup(old(db.categories), CategoryId, id)
      case None => r == Ok(false)
      case Some(c) =>
        if c.isSystem then r == Err(SystemCategoryUndeletable)
        else if CategoryUsage(db.transactions, id) > 0 then r == Err(CategoryInUse(CategoryUsage(db.transactions, id)))
        else r == Ok(true) && db.categories == RemoveKey(old(db.categories), CategoryId, id)
  {
    var category := GetCategoryById(db, id);
    if category.Err? {
      return Err(category.error);
    }
    if category.value.None? {
      return Ok(false);
    }
    if category.value.value.isSystem {
      return Err(SystemCategoryUndeletable);
    }
    var count := CategoryUsage(db.transactions, id);
    if count > 0 {
      return Err(CategoryInUse(count));
    }
    RemoveKeepsUnique(db.categories, CategoryId, id);
    db.categories := RemoveKey(db.categories, CategoryId, id);
    return Ok(true);
  }

  /** Every transaction names a category that exists. */
  ghost predicate CategoriesResolve(cats: seq<Category>, txs: seq<Transaction>) {
    forall t :: t in txs ==> exists c :: c in cats && c.id == t.categoryId
  }

  /** The delete guard keeps every transaction's category resolvable. */
  lemma DeleteKeepsReferences(cats: seq<Category>, txs: seq<Transaction>, id: string)
    requires CategoriesResolve(cats, txs) && CategoryUsage(txs, id) == 0
    ensures CategoriesResolve(RemoveKey(cats, CategoryId, id), txs)
  {
    forall t | t in txs ensures exists c :: c in RemoveKey(cats, CategoryId, id) && c.id == t.categoryId {
      var c :| c in cats && c.id == t.categoryId;
      assert c in RemoveKey(cats, CategoryId, id);
    }
  }

  // ------------------------------------------------------------ cleanup

  /** A custom, inactive category no transaction refers to. */
  predicate Unused(c: Category, txs: seq<Transaction>) {
    !c.isSystem && !c.isActive && CategoryUsage(txs, c.id) == 0
  }

  /** The categories a cleanup deletes. */
  function Removable(cats: seq<Category>, txs: seq<Transaction>): (r: seq<Category>)
    ensures forall c :: c in r <==> c in cats && Unused(c, txs)
  {
    Filter(cats, c => Unused(c, txs))
  }

  /** The categories a cleanup keeps. */
  function Kept(cats: seq<Category>, txs: seq<Transaction>): (r: seq<Category>)
    ensures forall c :: c in r <==> c in cats && !Unused(c, txs)
    ensures UniqueKeys(cats, CategoryId) ==> UniqueKeys(r, CategoryId)
  {
    FilterKeepsUnique(cats, c => !Unused(c, txs), CategoryId);
    Filter(cats, c => !Unused(c, txs))
  }

  /** A cleanup splits the table: every row is either kept or counted as removed. */
  lemma {:induction false} CleanupPartitions(cats: seq<Category>, txs: seq<Transaction>)
    ensures |Kept(cats, txs)| + |Removable(cats, txs)| == |cats|
  {
    if cats != [] {
      var init, last := cats[..|cats| - 1], cats[|cats| - 1];
      assert cats == init + [last];
      CleanupPartitions(init, txs);
      FilterAppend(init, last, c => Unused(c, txs));
      FilterAppend(init, last, c => !Unused(c, txs));
    }
  }

  /** A second cleanup finds nothing more to delete. */
  lemma CleanupIdempotent(cats: seq<Category>, txs: seq<Transaction>)
    ensures Removable(Kept(cats, txs), txs) == []
  {
  }

  /** Deletes every unused custom category and returns how many there were. */
  method CleanupUnusedCategories(db: Store) returns (r: Result<nat, StoreError>)
    requires db.Valid()
    modifies db`categories
    ensures db.Valid()
    ensures !old(db.isOpen) ==> r == Err(NotInitialized) && db.categories == old(db.categories)
    ensures old(db.isOpen) ==> r == Ok(|Removable(old(db.categories), db.transactions)|)
    ensures old(db.isOpen) ==> db.categories == Kept(old(db.categories), db.transactions)
  {
    if !db.isOpen {
      return Err(NotInitialized);
    }
    var txs := db.transactions;
    var unused := Removable(db.categories, txs);
    if |unused| == 0 {
      FilterAll(db.categories, c => !Unused(c, txs));
      return Ok(0);
    }
    db.categories := Kept(db.categories, db.transactions);
    return Ok(|unused|);
  }

  // ------------------------------------------------------------ name check

  /** JavaScript truthiness of the optional id: absent and the empty string are both "no exclusion". */
  function ExcludedId(excludeId: Option<string>): Option<string> {
    if excludeId.Some? && excludeId.value != "" then excludeId else None
  }

  predicate NameClash(c: Category, name: string, kind: TransactionType, excluded: Option<string>) {
    c.name == name && c.kind == kind && !c.deprecated && (excluded.Some? ==> c.id != excluded.value)
  }

  /** Whether another non-deprecated category of the type already has this name. */
  function IsCategoryNameExists(db: Store, name: string, kind: TransactionType, excludeId: Option<string>)
    : (r: Result<bool, StoreError>)
    reads db
    ensures r.Err? <==> !db.isOpen
    ensures r.Ok? ==> (r.value <==> exists c :: c in db.categories && c.name == name && c.kind == kind && !c.deprecated
                                                && (excludeId.Some? && excludeId.value != "" ==> c.id != excludeId.value))
  {
    if !db.isOpen then Err(NotInitialized)
    else
      var excluded := ExcludedId(excludeId);
      Ok(Filter(db.categories, c => NameClash(c, name, kind, excluded)) != [])
  }
}
