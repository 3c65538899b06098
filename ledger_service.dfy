/**
 * The ledger repository. The application works with one default ledger; the
 * default ledger cannot be deleted, nor can a ledger that transactions use.
 */
module LedgerService {
  import opened Wrappers
  import opened Types
  import opened Tables
  import opened Sorting
  import opened Database

  /** The first ledger marked default, or None. */
  function GetDefaultLedger(db: Store): (r: Result<Option<Ledger>, StoreError>)
    reads db
    ensures r.Err? <==> !db.isOpen
    ensures r.Ok? && r.value.Some? ==> r.value.value in db.ledgers && r.value.value.isDefault
    ensures r.Ok? && r.value.None? ==> forall l :: l in db.ledgers ==> !l.isDefault
    ensures r.Ok? && r.value.Some? ==> db.GetDefaultLedgerId() == Ok(r.value.value.id)
  {
    if !db.isOpen then Err(NotInitialized) else Ok(FirstDefault(db.ledgers))
  }

  /** `ORDER BY sort_order ASC` */
  predicate BySortOrder(a: Ledger, b: Ledger) {
    a.sortOrder <= b.sortOrder
  }

  /** Every ledger, by sort order. */
  function GetAllLedgers(db: Store): (r: Result<seq<Ledger>, StoreError>)
    reads db
    ensures r.Err? <==> !db.isOpen
    ensures r.Ok? ==> multiset(r.value) == multiset(db.ledgers)
    ensures r.Ok? ==> forall i, j :: 0 <= i < j < |r.value| ==> r.value[i].sortOrder <= r.value[j].sortOrder
  {
    if !db.isOpen then Err(NotInitialized)
    else
      assert TotalPreorder(BySortOrder);
      Ok(SortBy(db.ledgers, BySortOrder))
  }

  function GetLedgerById(db: Store, id: string): (r: Result<Option<Ledger>, StoreError>)
    reads db
    ensures r.Err? <==> !db.isOpen
    ensures r.Ok? && r.value.Some? ==> r.value.value in db.ledgers && r.value.value.id == id
    ensures r.Ok? && r.value.None? ==> forall l :: l in db.ledgers ==> l.id != id
  {
    if !db.isOpen then Err(NotInitialized) else Ok(Lookup(db.ledgers, LedgerId, id))
  }

  /** Inserts the ledger the input describes and returns it; nothing stops a second default. */
  method CreateLedger(db: Store, input: CreateLedgerInput, id: string, now: string)
    returns (r: Result<Ledger, StoreError>)
    requires db.Valid()
    requires forall l :: l in db.ledgers ==> l.id != id
    modifies db`ledgers
    ensures db.Valid()
    ensures !old(db.isOpen) ==> r == Err(NotInitialized) && db.ledgers == old(db.ledgers)
    ensures old(db.isOpen) ==> r.Ok? && db.ledgers == old(db.ledgers) + [r.value]
    ensures r.Ok? ==> LedgerInput(r.value) == input && r.value.id == id
    ensures r.Ok? ==> r.value.createdAt == now && r.value.updatedAt == now
  {
    if !db.isOpen {
      return Err(NotInitialized);
    }
    var row := NewLedger(input, id, now);
    AppendKeepsUnique(db.ledgers, LedgerId, row);
    db.ledgers := db.ledgers + [row];
    return Ok(row);
  }

  /** Whether an update names any field at all. */
  predicate ChangesSomething(input: UpdateLedgerInput) {
    input.name.Some? || input.icon.Some? || input.color.Some? || input.isDefault.Some? || input.sortOrder.Some?
  }

  /** A ledger after an update: every named field replaced, and a new `updated_at` when any was. */
  function PatchLedger(l: Ledger, input: UpdateLedgerInput, now: string): (r: Ledger)
    ensures r.id == l.id && r.createdAt == l.createdAt
    ensures LedgerInput(r) == CreateLedgerInput(
      input.name.GetOr(l.name), input.icon.GetOr(l.icon), input.color.GetOr(l.color),
      input.isDefault.GetOr(l.isDefault), input.sortOrder.GetOr(l.sortOrder))
    ensures !ChangesSomething(input) ==> r == l
    ensures ChangesSomething(input) ==> r.updatedAt == now
  {
    if !ChangesSomething(input) then l
    else l.(
      name := input.name.GetOr(l.name),
      icon := input.icon.GetOr(l.icon),
      color := input.color.GetOr(l.color),
      isDefault := input.isDefault.GetOr(l.isDefault),
      sortOrder := input.sortOrder.GetOr(l.sortOrder),
      updatedAt := now)
  }

  /** Applying the same update twice is applying it once (with the later time). */
  lemma PatchLedgerIdempotent(l: Ledger, input: UpdateLedgerInput, now1: string, now2: string)
    ensures PatchLedger(PatchLedger(l, input, now1), input, now2) == PatchLedger(l, input, now2)
  {
  }

  /** `UPDATE ledgers SET ... WHERE id = ?`: every row with the id is patched. */
  function UpdateLedgerRows(ls: seq<Ledger>, id: string, input: UpdateLedgerInput, now: string): (r: seq<Ledger>)
    ensures |r| == |ls|
    ensures forall i :: 0 <= i < |ls| ==> r[i] == if ls[i].id == id then PatchLedger(ls[i], input, now) else ls[i]
    ensures UniqueKeys(ls, LedgerId) ==> UniqueKeys(r, LedgerId)
  {
    var r := seq(|ls|, i requires 0 <= i < |ls| => if ls[i].id == id then PatchLedger(ls[i], input, now) else ls[i]);
    assert forall i :: 0 <= i < |ls| ==> LedgerId(r[i]) == LedgerId(ls[i]);
    r
  }

  /**
   * Updates a ledger and returns it as stored afterwards (None for an unknown
   * id); an update naming no field changes nothing.
   */
  method UpdateLedger(db: Store, id: string, input: UpdateLedgerInput, now: string)
    returns (r: Result<Option<Ledger>, StoreError>)
    requires db.Valid()
    modifies db`ledgers
    ensures db.Valid()
    ensures !old(db.isOpen) ==> r == Err(NotInitialized) && db.ledgers == old(db.ledgers)
    ensures old(db.isOpen) ==> db.ledgers == UpdateLedgerRows(old(db.ledgers), id, input, now)
    ensures old(db.isOpen) ==> r == Ok(Lookup(db.ledgers, LedgerId, id))
    ensures old(db.isOpen) ==> match Lookup(old(db.ledgers), LedgerId, id)
                                case None => r == Ok(None)
                                case Some(l) => r == Ok(Some(PatchLedger(l, input, now)))
  {
    if !db.isOpen {
      return Err(NotInitialized);
    }
    if !ChangesSomething(input) {
      assert UpdateLedgerRows(db.ledgers, id, input, now) == db.ledgers;
      return Ok(Lookup(db.ledgers, LedgerId, id));
    }
    ghost var before := db.ledgers;
    db.ledgers := UpdateLedgerRows(db.ledgers, id, input, now);
    match IndexOf(before, LedgerId, id) {
      case None =>
      case Some(k) =>
        LookupUnique(db.ledgers, LedgerId, k);
    }
    return Ok(Lookup(db.ledgers, LedgerId, id));
  }

  /** `SELECT COUNT(*) FROM transactions WHERE ledger_id = ?` */
  function LedgerUsage(txs: seq<Transaction>, id: string): (n: nat)
    ensures n == 0 <==> forall t :: t in txs ==> t.ledgerId != id
  {
    Count(txs, (t: Transaction) => t.ledgerId == id)
  }

  /**
   * Deletes a ledger that is neither the default nor used by a transaction.
   * An unknown id gives false; the two guarded cases are refused with an error.
   */
  method DeleteLedger(db: Store, id: string) returns (r: Result<bool, StoreError>)
    requires db.Valid()
    modifies db`ledgers
    ensures db.Valid()
    ensures r != Ok(true) ==> db.ledgers == old(db.ledgers)
    ensures !old(db.isOpen) ==> r == Err(NotInitialized)
    ensures old(db.isOpen) ==> match Lookup(old(db.ledgers), LedgerId, id)
      case None => r == Ok(false)
      case Some(l) =>
        if l.isDefault then r == Err(DefaultLedgerUndeletable)
        else if LedgerUsage(db.transactions, id) > 0 then r == Err(LedgerInUse(LedgerUsage(db.transactions, id)))
        else r == Ok(true) && db.ledgers == RemoveKey(old(db.ledgers), LedgerId, id)
  {
    var ledger := GetLedgerById(db, id);
    if ledger.Err? {
      return Err(ledger.error);
    }
    if ledger.value.None? {
      return Ok(false);
    }
    if ledger.value.value.isDefault {
      return Err(DefaultLedgerUndeletable);
    }
    var count := LedgerUsage(db.transactions, id);
    if count > 0 {
      return Err(LedgerInUse(count));
    }
    RemoveKeepsUnique(db.ledgers, LedgerId, id);
    db.ledgers := RemoveKey(db.ledgers, LedgerId, id);
    return Ok(true);
  }

  /** A delete that passes the guards leaves a default ledger in place when there was one. */
  lemma DefaultSurvivesDelete(ls: seq<Ledger>, id: string)
    requires UniqueKeys(ls, LedgerId)
    requires FirstDefault(ls).Some?
    requires Lookup(ls, LedgerId, id).Some? && !Lookup(ls, LedgerId, id).value.isDefault
    ensures FirstDefault(RemoveKey(ls, LedgerId, id)).Some?
  {
    var d := FirstDefault(ls).value;
    var i :| 0 <= i < |ls| && ls[i] == d;
    LookupUnique(ls, LedgerId, i);
    assert d in RemoveKey(ls, LedgerId, id);
  }

  /** Every transaction names a ledger that exists. */
  ghost predicate LedgersResolve(ls: seq<Ledger>, txs: seq<Transaction>) {
    forall t :: t in txs ==> exists l :: l in ls && l.id == t.ledgerId
  }

  /** The in-use guard keeps every transaction's ledger resolvable. */
  lemma DeleteKeepsLedgerReferences(ls: seq<Ledger>, txs: seq<Transaction>, id: string)
    requires LedgersResolve(ls, txs) && LedgerUsage(txs, id) == 0
    ensures LedgersResolve(RemoveKey(ls, LedgerId, id), txs)
  {
    forall t | t in txs ensures exists l :: l in RemoveKey(ls, LedgerId, id) && l.id == t.ledgerId {
      var l :| l in ls && l.id == t.ledgerId;
      assert l in RemoveKey(ls, LedgerId, id);
    }
  }
}
