/**
 * The store behind every repository: three tables, the schema-version marker
 * and the open handle, with start-up (migrate, create the default ledger,
 * reconcile the system categories) and shutdown.
 */
module Database {
  import opened Wrappers
  import opened Types
  import opened Tables
  import opened SystemCategories

  const DATABASE_NAME := "firelight.db"
  const SCHEMA_VERSION := 1
  const DEFAULT_LEDGER_NAME := "默认账本"
  const DEFAULT_LEDGER_ICON := "📒"
  const DEFAULT_LEDGER_COLOR := "#6366F1"

  /** What an open handle gives access to: the three tables. */
  datatype Snapshot = Snapshot(
    ledgers: seq<Ledger>,
    categories: seq<Category>,
    transactions: seq<Transaction>)

  // ------------------------------------------------------------ migrations

  /** The version marker after a migration run: raised to SCHEMA_VERSION only when lower. */
  function MigratedVersion(v: int): (r: int)
    ensures r >= SCHEMA_VERSION && r >= v
    ensures v < SCHEMA_VERSION ==> r == SCHEMA_VERSION
    ensures v >= SCHEMA_VERSION ==> r == v
  {
    if v < SCHEMA_VERSION then SCHEMA_VERSION else v
  }

  /** Migration v1 (the three tables and their indexes) runs only below version 1. */
  predicate RunsMigrationV1(v: int) {
    v < 1
  }

  /** A second migration run finds nothing to do. */
  lemma MigrateTwice(v: int)
    ensures MigratedVersion(MigratedVersion(v)) == MigratedVersion(v)
    ensures !RunsMigrationV1(MigratedVersion(v))
  {
  }

  // ------------------------------------------------------------ default ledger

  function DefaultLedgerRow(id: string, now: string): (l: Ledger)
    ensures l.isDefault && l.sortOrder == 0
    ensures l.id == id && l.createdAt == now && l.updatedAt == now
  {
    Ledger(id, DEFAULT_LEDGER_NAME, DEFAULT_LEDGER_ICON, DEFAULT_LEDGER_COLOR, true, 0, now, now)
  }

  predicate IsDefaultLedger(l: Ledger) {
    l.isDefault
  }

  /** `SELECT ... FROM ledgers WHERE is_default = 1`: the first such row in table order. */
  function FirstDefault(ls: seq<Ledger>): (r: Option<Ledger>)
    ensures r.Some? ==> r.value in ls && r.value.isDefault
    ensures r.None? <==> forall l :: l in ls ==> !l.isDefault
  {
    if ls == [] then None
    else if ls[0].isDefault then Some(ls[0])
    else FirstDefault(ls[1..])
  }

  function CountDefaults(ls: seq<Ledger>): nat {
    Count(ls, IsDefaultLedger)
  }

  /**
   * The ledgers table after the default-ledger bootstrap: untouched when a
   * default exists, otherwise with exactly one default ledger appended.
   */
  function BootstrapLedgers(ls: seq<Ledger>, id: string, now: string): (r: seq<Ledger>)
    ensures FirstDefault(r).Some?
    ensures CountDefaults(r) == if CountDefaults(ls) == 0 then 1 else CountDefaults(ls)
    ensures FirstDefault(ls).Some? ==> r == ls
    ensures FirstDefault(ls).None? ==> |r| == |ls| + 1 && r[..|ls|] == ls
    ensures |r| == |ls| + 1 ==> r[|ls|].isDefault && r[|ls|].sortOrder == 0 && r[|ls|].id == id
  {
    if FirstDefault(ls).Some? then ls
    else
      var row := DefaultLedgerRow(id, now);
      FilterAppend(ls, row, IsDefaultLedger);
      assert (ls + [row])[..|ls|] == ls;
      assert FirstDefault(ls + [row]).Some? by {
        assert row in ls + [row];
      }
      ls + [row]
  }

  /** Running the bootstrap again never creates a second default ledger. */
  lemma BootstrapIdempotent(ls: seq<Ledger>, id1: string, now1: string, id2: string, now2: string)
    ensures BootstrapLedgers(BootstrapLedgers(ls, id1, now1), id2, now2) == BootstrapLedgers(ls, id1, now1)
  {
  }

  // ------------------------------------------------------------ system categories

  /** A definition not yet in the store becomes an active system row. */
  function InsertedRow(def: SystemCategoryConfig, now: string): Category {
    Category(def.id, def.name, def.icon, def.kind, true, true, def.sortOrder, DeprecatedFlag(def), now, now)
  }

  /** `ON CONFLICT(id) DO UPDATE SET name, icon, sort_order, deprecated, updated_at`. */
  function SyncedRow(c: Category, def: SystemCategoryConfig, now: string): Category {
    c.(name := def.name, icon := def.icon, sortOrder := def.sortOrder, deprecated := DeprecatedFlag(def), updatedAt := now)
  }

  /** The fields the reconciler never touches on an existing row. */
  predicate Preserved(before: Category, after: Category) {
    && after.id == before.id
    && after.isActive == before.isActive
    && after.isSystem == before.isSystem
    && after.kind == before.kind
    && after.createdAt == before.createdAt
  }

  /** The row `c` shows the synced fields of `def`. */
  predicate CarriesDefinition(c: Category, def: SystemCategoryConfig) {
    && c.id == def.id
    && c.name == def.name
    && c.icon == def.icon
    && c.sortOrder == def.sortOrder
    && c.deprecated == DeprecatedFlag(def)
  }

  /** The row with `def`'s id exists and carries `def`. */
  predicate Applied(cats: seq<Category>, def: SystemCategoryConfig) {
    var k := IndexOf(cats, CategoryId, def.id);
    k.Some? && CarriesDefinition(cats[k.value], def)
  }

  /** The facts `Upsert` promises, for a result `r` of `cats`. */
  ghost predicate UpsertOutcome(cats: seq<Category>, def: SystemCategoryConfig, now: string, r: seq<Category>) {
    && (|r| == |cats| || |r| == |cats| + 1)
    && (|r| == |cats| + 1 <==> forall c :: c in cats ==> c.id != def.id)
    && (|r| == |cats| + 1 ==> r[|cats|] == InsertedRow(def, now))
    && (forall i :: 0 <= i < |cats| ==> Preserved(cats[i], r[i]))
    && (forall i :: 0 <= i < |cats| && cats[i].id != def.id ==> r[i] == cats[i])
    && Applied(r, def)
    && (UniqueKeys(cats, CategoryId) ==> UniqueKeys(r, CategoryId))
  }

  /** An absent id is inserted as a new last row. */
  lemma UpsertInserts(cats: seq<Category>, def: SystemCategoryConfig, now: string)
    requires IndexOf(cats, CategoryId, def.id).None?
    ensures UpsertOutcome(cats, def, now, cats + [InsertedRow(def, now)])
  {
    var r := cats + [InsertedRow(def, now)];
    AppendKeepsUnique(cats, CategoryId, InsertedRow(def, now));
    IndexOfAt(r, CategoryId, def.id, |cats|);
  }

  /** A present id has its row's synced fields overwritten in place. */
  lemma UpsertUpdates(cats: seq<Category>, def: SystemCategoryConfig, now: string, k: nat)
    requires IndexOf(cats, CategoryId, def.id) == Some(k)
    ensures UpsertOutcome(cats, def, now, cats[k := SyncedRow(cats[k], def, now)])
  {
    var r := cats[k := SyncedRow(cats[k], def, now)];
    assert cats[k] in cats;
    assert Preserved(cats[k], r[k]);
    assert forall i :: 0 <= i < |cats| && i != k ==> r[i] == cats[i];
    ReplaceKeepsUnique(cats, CategoryId, k, SyncedRow(cats[k], def, now));
    IndexOfAt(r, CategoryId, def.id, k);
    assert Applied(r, def);
  }

  /** One upsert keyed by id. */
  function Upsert(cats: seq<Category>, def: SystemCategoryConfig, now: string): (r: seq<Category>)
    ensures |r| == |cats| || |r| == |cats| + 1
    ensures |r| == |cats| + 1 <==> forall c :: c in cats ==> c.id != def.id
    ensures |r| == |cats| + 1 ==> r[|cats|] == InsertedRow(def, now)
    ensures forall i :: 0 <= i < |cats| ==> Preserved(cats[i], r[i])
    ensures forall i :: 0 <= i < |cats| && cats[i].id != def.id ==> r[i] == cats[i]
    ensures Applied(r, def)
    ensures UniqueKeys(cats, CategoryId) ==> UniqueKeys(r, CategoryId)
  {
    match IndexOf(cats, CategoryId, def.id)
    case None =>
      UpsertInserts(cats, def, now);
      cats + [InsertedRow(def, now)]
    case Some(k) =>
      UpsertUpdates(cats, def, now, k);
      cats[k := SyncedRow(cats[k], def, now)]
  }

  /** The categories table after upserting every definition in order. */
  function SyncAll(cats: seq<Category>, defs: seq<SystemCategoryConfig>, now: string): (r: seq<Category>)
    decreases |defs|
    ensures |cats| <= |r| <= |cats| + |defs|
  {
    if defs == [] then cats
    else Upsert(SyncAll(cats, defs[..|defs| - 1], now), defs[|defs| - 1], now)
  }

  /** The last definition of a sync is upserted into the result of syncing the others. */
  lemma SyncAllLast(cats: seq<Category>, defs: seq<SystemCategoryConfig>, now: string)
    requires defs != []
    ensures SyncAll(cats, defs, now) == Upsert(SyncAll(cats, defs[..|defs| - 1], now), defs[|defs| - 1], now)
  {
  }

  /** A sync keeps every existing row in its place with its id, type, active and system marks and creation time. */
  lemma {:induction false} SyncAllPreserves(cats: seq<Category>, defs: seq<SystemCategoryConfig>, now: string)
    ensures forall i :: 0 <= i < |cats| ==> Preserved(cats[i], SyncAll(cats, defs, now)[i])
  {
    if defs != [] {
      var before := SyncAll(cats, defs[..|defs| - 1], now);
      var r := SyncAll(cats, defs, now);
      SyncAllPreserves(cats, defs[..|defs| - 1], now);
      SyncAllLast(cats, defs, now);
      forall i | 0 <= i < |cats| ensures Preserved(cats[i], r[i]) {
        assert Preserved(cats[i], before[i]) && Preserved(before[i], r[i]);
      }
    }
  }

  /** A sync leaves a row that no definition names exactly as it was. */
  lemma {:induction false} SyncAllLeavesOthers(cats: seq<Category>, defs: seq<SystemCategoryConfig>, now: string)
    ensures forall i :: 0 <= i < |cats| && (forall d :: d in defs ==> d.id != cats[i].id) ==> SyncAll(cats, defs, now)[i] == cats[i]
  {
    if defs != [] {
      var init, last := defs[..|defs| - 1], defs[|defs| - 1];
      var before := SyncAll(cats, init, now);
      var r := SyncAll(cats, defs, now);
      SyncAllLeavesOthers(cats, init, now);
      SyncAllLast(cats, defs, now);
      forall i | 0 <= i < |cats| && (forall d :: d in defs ==> d.id != cats[i].id) ensures r[i] == cats[i] {
        assert forall d :: d in init ==> d in defs;
        assert before[i] == cats[i];
        assert last in defs;
      }
    }
  }

  /** Rows a sync adds are active system rows. */
  lemma {:induction false} SyncAllAddsSystemRows(cats: seq<Category>, defs: seq<SystemCategoryConfig>, now: string)
    ensures forall i :: |cats| <= i < |SyncAll(cats, defs, now)| ==> SyncAll(cats, defs, now)[i].isSystem && SyncAll(cats, defs, now)[i].isActive
  {
    if defs != [] {
      var before := SyncAll(cats, defs[..|defs| - 1], now);
      var r := SyncAll(cats, defs, now);
      SyncAllAddsSystemRows(cats, defs[..|defs| - 1], now);
      SyncAllLast(cats, defs, now);
      forall i | |cats| <= i < |r| ensures r[i].isSystem && r[i].isActive {
        if i < |before| {
          assert Preserved(before[i], r[i]);
        } else {
          assert r[i] == InsertedRow(defs[|defs| - 1], now);
        }
      }
    }
  }

  /** A sync keeps ids unique. */
  lemma {:induction false} SyncAllKeepsUnique(cats: seq<Category>, defs: seq<SystemCategoryConfig>, now: string)
    ensures UniqueKeys(cats, CategoryId) ==> UniqueKeys(SyncAll(cats, defs, now), CategoryId)
  {
    if defs != [] {
      SyncAllKeepsUnique(cats, defs[..|defs| - 1], now);
      SyncAllLast(cats, defs, now);
    }
  }

  /** Syncing one more definition is one more upsert. */
  lemma SyncAllStep(cats: seq<Category>, defs: seq<SystemCategoryConfig>, i: nat, now: string)
    requires i < |defs|
    ensures SyncAll(cats, defs[..i + 1], now) == Upsert(SyncAll(cats, defs[..i], now), defs[i], now)
  {
    assert defs[..i + 1][..i] == defs[..i];
  }

  function Unstamped(c: Category): Category {
    c.(updatedAt := "")
  }

  /** Equal row by row except perhaps for `updated_at`. */
  predicate SameExceptUpdatedAt(a: seq<Category>, b: seq<Category>) {
    |a| == |b| && forall i :: 0 <= i < |a| ==> Unstamped(a[i]) == Unstamped(b[i])
  }

  lemma AppliedWhenSame(a: seq<Category>, b: seq<Category>, def: SystemCategoryConfig)
    requires SameExceptUpdatedAt(a, b) && Applied(a, def)
    ensures Applied(b, def)
  {
    forall i | 0 <= i < |a| ensures CategoryId(a[i]) == CategoryId(b[i]) {
      assert Unstamped(a[i]).id == Unstamped(b[i]).id;
    }
    IndexOfSameKeys(a, b, CategoryId, def.id);
    var k := IndexOf(a, CategoryId, def.id).value;
    assert Unstamped(a[k]) == Unstamped(b[k]);
  }

  /** Upserting a definition that is already applied only refreshes `updated_at`. */
  lemma UpsertApplied(cats: seq<Category>, def: SystemCategoryConfig, now: string)
    requires Applied(cats, def)
    ensures SameExceptUpdatedAt(Upsert(cats, def, now), cats)
  {
    var k := IndexOf(cats, CategoryId, def.id).value;
    var r := Upsert(cats, def, now);
    assert r == cats[k := SyncedRow(cats[k], def, now)];
  }

  /** Upserting another id leaves an applied definition applied. */
  lemma UpsertKeepsApplied(cats: seq<Category>, e: SystemCategoryConfig, d: SystemCategoryConfig, now: string)
    requires Applied(cats, d) && e.id != d.id
    ensures Applied(Upsert(cats, e, now), d)
  {
    var r := Upsert(cats, e, now);
    var k := IndexOf(cats, CategoryId, d.id).value;
    assert r[k] == cats[k];
    forall j | 0 <= j < k ensures CategoryId(r[j]) != d.id {
      assert Preserved(cats[j], r[j]);
    }
    IndexOfAt(r, CategoryId, d.id, k);
  }

  /** After a sync with distinct ids, every definition is applied. */
  lemma {:induction false} SyncAppliesAll(cats: seq<Category>, defs: seq<SystemCategoryConfig>, now: string)
    requires IdsDistinct(defs)
    ensures forall d :: d in defs ==> Applied(SyncAll(cats, defs, now), d)
  {
    if defs != [] {
      var init, last := defs[..|defs| - 1], defs[|defs| - 1];
      var before := SyncAll(cats, init, now);
      SyncAppliesAll(cats, init, now);
      forall d | d in defs ensures Applied(SyncAll(cats, defs, now), d) {
        if d != last {
          var j :| 0 <= j < |defs| && defs[j] == d;
          assert j < |defs| - 1;
          assert d in init;
          UpsertKeepsApplied(before, last, d, now);
        }
      }
    }
  }

  /** Syncing definitions that are all applied changes nothing but `updated_at`. */
  lemma {:induction false} SyncOverApplied(cats: seq<Category>, defs: seq<SystemCategoryConfig>, now: string)
    requires forall d :: d in defs ==> Applied(cats, d)
    ensures SameExceptUpdatedAt(SyncAll(cats, defs, now), cats)
  {
    if defs != [] {
      var init, last := defs[..|defs| - 1], defs[|defs| - 1];
      var before := SyncAll(cats, init, now);
      assert forall d :: d in init ==> d in defs;
      SyncOverApplied(cats, init, now);
      AppliedWhenSame(cats, before, last);
      UpsertApplied(before, last, now);
    }
  }

  /** Syncing twice with the same distinct-id list leaves the rows as one sync left them, apart from `updated_at`. */
  lemma SyncIdempotent(cats: seq<Category>, defs: seq<SystemCategoryConfig>, now1: string, now2: string)
    requires IdsDistinct(defs)
    ensures SameExceptUpdatedAt(SyncAll(SyncAll(cats, defs, now1), defs, now2), SyncAll(cats, defs, now1))
  {
    SyncAppliesAll(cats, defs, now1);
    SyncOverApplied(SyncAll(cats, defs, now1), defs, now2);
  }

  /** The categories table after reconciling it with the system-category catalogue. */
  function Reconciled(cats: seq<Category>, now: string): seq<Category> {
    SyncAll(cats, SYSTEM_CATEGORIES, now)
  }

  /** After reconciling, every catalogue entry is present and carries its definition. */
  lemma CatalogueApplied(cats: seq<Category>, now: string)
    ensures forall def :: def in SYSTEM_CATEGORIES ==> Applied(Reconciled(cats, now), def)
  {
    SystemCategoryIdsDistinct();
    SyncAppliesAll(cats, SYSTEM_CATEGORIES, now);
  }

  // ------------------------------------------------------------ the store

  /** The single process-wide store: the open handle, the version marker and the tables. */
  class Store {
    var isOpen: bool
    var userVersion: int
    var tablesCreated: bool
    var ledgers: seq<Ledger>
    var categories: seq<Category>
    var transactions: seq<Transaction>

    /** Every table's primary key is unique. */
    ghost predicate Keyed()
      reads this
    {
      && UniqueKeys(ledgers, LedgerId)
      && UniqueKeys(categories, CategoryId)
      && UniqueKeys(transactions, TransactionId)
    }

    /** Keys are unique, the tables exist once migrated, and an open store is migrated. */
    ghost predicate Valid()
      reads this
    {
      && Keyed()
      && (userVersion >= SCHEMA_VERSION ==> tablesCreated)
      && (isOpen ==> userVersion >= SCHEMA_VERSION)
    }

    /** A store file that has never been opened. */
    constructor ()
      ensures Valid() && !isOpen
      ensures userVersion == 0 && !tablesCreated
      ensures ledgers == [] && categories == [] && transactions == []
    {
      isOpen := false;
      userVersion := 0;
      tablesCreated := false;
      ledgers := [];
      categories := [];
      transactions := [];
    }

    /** The handle, or the "not initialised" error when the store is closed. */
    function GetDatabase(): (r: Result<Snapshot, StoreError>)
      reads this
      ensures r.Err? <==> !isOpen
      ensures r.Err? ==> r.error == NotInitialized
      ensures r.Ok? ==> r.value == Snapshot(ledgers, categories, transactions)
    {
      if isOpen then Ok(Snapshot(ledgers, categories, transactions)) else Err(NotInitialized)
    }

    /**
     * Open, migrate, create the default ledger, reconcile the system categories, in that order.
     * The ledger step and the reconcile step each read the clock: `ledgerNow` and `syncNow`.
     */
    method Init(ledgerId: string, ledgerNow: string, syncNow: string)
      requires Valid()
      requires forall l :: l in ledgers ==> l.id != ledgerId
      modifies this
      ensures Valid() && isOpen && tablesCreated
      ensures userVersion == MigratedVersion(old(userVersion))
      ensures ledgers == BootstrapLedgers(old(ledgers), ledgerId, ledgerNow)
      ensures categories == Reconciled(old(categories), syncNow)
      ensures transactions == old(transactions)
      ensures GetDefaultLedgerId().Ok?
      ensures forall def :: def in SYSTEM_CATEGORIES ==> Applied(categories, def)
    {
      isOpen := true;
      RunMigrations();
      InitDefaultLedger(ledgerId, ledgerNow);
      assert categories == old(categories);
      SyncSystemCategories(syncNow);
      CatalogueApplied(old(categories), syncNow);
    }

    /** Releases the handle; on a closed store it does nothing. */
    method Close()
      requires Valid()
      modifies this`isOpen
      ensures Valid() && !isOpen
      ensures !old(isOpen) ==> unchanged(this)
    {
      if isOpen {
        isOpen := false;
      }
    }

    /** Runs migration v1 below version 1, then raises the marker when it is below SCHEMA_VERSION. */
    method RunMigrations()
      requires isOpen && Keyed() && (userVersion >= SCHEMA_VERSION ==> tablesCreated)
      modifies this`userVersion, this`tablesCreated
      ensures Valid()
      ensures userVersion == MigratedVersion(old(userVersion))
      ensures tablesCreated == (old(tablesCreated) || RunsMigrationV1(old(userVersion)))
    {
      var currentVersion := userVersion;
      if currentVersion < 1 {
        tablesCreated := true;
      }
      if currentVersion < SCHEMA_VERSION {
        userVersion := SCHEMA_VERSION;
      }
    }

    /** Creates the default ledger unless one already exists. */
    method InitDefaultLedger(id: string, now: string)
      requires isOpen && Valid()
      requires forall l :: l in ledgers ==> l.id != id
      modifies this`ledgers
      ensures Valid()
      ensures ledgers == BootstrapLedgers(old(ledgers), id, now)
    {
      var existing := FirstDefault(ledgers);
      if existing.Some? {
        return;
      }
      var row := DefaultLedgerRow(id, now);
      AppendKeepsUnique(ledgers, LedgerId, row);
      ledgers := ledgers + [row];
    }

    /** Reconciles the stored system categories with the catalogue. */
    method SyncSystemCategories(now: string)
      requires isOpen && Valid()
      modifies this`categories
      ensures Valid()
      ensures categories == Reconciled(old(categories), now)
      ensures unchanged(this`isOpen, this`userVersion, this`tablesCreated, this`ledgers, this`transactions)
    {
      SyncDefinitions(SYSTEM_CATEGORIES, now);
    }

    /** Upserts each definition in turn: update the row in place, or append a new one. */
    method SyncDefinitions(defs: seq<SystemCategoryConfig>, now: string)
      requires isOpen && Valid()
      modifies this`categories
      ensures Valid()
      ensures categories == SyncAll(old(categories), defs, now)
    {
      var i := 0;
      while i < |defs|
        invariant 0 <= i <= |defs|
        invariant Valid()
        invariant categories == SyncAll(old(categories), defs[..i], now)
      {
        SyncAllStep(old(categories), defs, i, now);
        categories := Upsert(categories, defs[i], now);
        i := i + 1;
      }
      assert defs[..|defs|] == defs;
    }

    /**
     * The id of the first default ledger; fails when there is none. It reads the
     * handle directly, so a closed store fails on the null handle.
     */
    function GetDefaultLedgerId(): (r: Result<string, StoreError>)
      reads this
      ensures r.Ok? ==> isOpen && exists l :: l in ledgers && l.isDefault && l.id == r.value
      ensures r.Err? && isOpen ==> r.error == DefaultLedgerNotFound && forall l :: l in ledgers ==> !l.isDefault
      ensures !isOpen ==> r == Err(NullHandle)
    {
      if !isOpen then Err(NullHandle)
      else match FirstDefault(ledgers)
        case None => Err(DefaultLedgerNotFound)
        case Some(l) => Ok(l.id)
    }
  }
}
