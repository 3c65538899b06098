/**
 * The transaction repository: create, read, update and delete single
 * transactions, the filtered listing, the per-day grouping of a month, the
 * monthly totals, and the months that hold data. Every query is scoped to one
 * ledger: the one the caller names, or else the default ledger.
 */
module TransactionService {
  import opened Wrappers
  import opened Types
  import opened Tables
  import opened Sorting
  import opened Text
  import opened Database

  // ------------------------------------------------------------ ledger scope

  /** JavaScript truthiness of an optional string: absent and "" both count as not given. */
  predicate Given(s: Option<string>) {
    s.Some? && s.value != ""
  }

  /**
   * `getDatabase()` followed by `ledgerId || getDefaultLedgerId()`: the named
   * ledger, or else the default one; the store must be open either way.
   */
  function ResolveLedger(db: Store, ledgerId: Option<string>): (r: Result<string, StoreError>)
    reads db
    ensures r.Err? <==> !db.isOpen || (!Given(ledgerId) && forall l :: l in db.ledgers ==> !l.isDefault)
    ensures r.Err? ==> r.error == if db.isOpen then DefaultLedgerNotFound else NotInitialized
    ensures r.Ok? && Given(ledgerId) ==> r.value == ledgerId.value
    ensures r.Ok? && !Given(ledgerId) ==> exists l :: l in db.ledgers && l.isDefault && l.id == r.value
  {
    if !db.isOpen then Err(NotInitialized)
    else if Given(ledgerId) then Ok(ledgerId.value)
    else db.GetDefaultLedgerId()
  }

  // ------------------------------------------------------------ create / read

  /** The row `createTransaction` inserts; an absent or empty note is stored as "". */
  function NewTransaction(input: CreateTransactionInput, ledgerId: string, id: string, now: string): (t: Transaction)
    ensures t.id == id && t.ledgerId == ledgerId && t.createdAt == now && t.updatedAt == now
    ensures t.kind == input.kind && t.amount == input.amount
    ensures t.categoryId == input.categoryId && t.date == input.date
    ensures t.note == if Given(input.note) then input.note.value else ""
  {
    Transaction(id, ledgerId, input.kind, input.amount, input.categoryId, input.date, input.note.GetOr(""), now, now)
  }

  /** Inserts a transaction into the named or default ledger and returns it as stored. */
  method CreateTransaction(db: Store, input: CreateTransactionInput, id: string, now: string)
    returns (r: Result<Transaction, StoreError>)
    requires db.Valid()
    requires forall t :: t in db.transactions ==> t.id != id
    modifies db`transactions
    ensures db.Valid()
    ensures r.Err? ==> old(ResolveLedger(db, input.ledgerId)) == Err(r.error) && db.transactions == old(db.transactions)
    ensures r.Ok? ==> old(ResolveLedger(db, input.ledgerId)) == Ok(r.value.ledgerId)
    ensures r.Ok? ==> r.value == NewTransaction(input, r.value.ledgerId, id, now)
    ensures r.Ok? ==> db.transactions == old(db.transactions) + [r.value]
    ensures r.Ok? ==> Lookup(db.transactions, TransactionId, id) == Some(r.value)
  {
    var ledgerId := ResolveLedger(db, input.ledgerId);
    if ledgerId.Err? {
      return Err(ledgerId.error);
    }
    var row := NewTransaction(input, ledgerId.value, id, now);
    AppendKeepsUnique(db.transactions, TransactionId, row);
    db.transactions := db.transactions + [row];
    LookupUnique(db.transactions, TransactionId, |db.transactions| - 1);
    return Ok(row);
  }

  /** `SELECT * FROM transactions WHERE id = ?` */
  function GetTransactionById(db: Store, id: string): (r: Result<Option<Transaction>, StoreError>)
    reads db
    ensures r.Err? <==> !db.isOpen
    ensures r.Ok? && r.value.Some? ==> r.value.value in db.transactions && r.value.value.id == id
    ensures r.Ok? && r.value.None? ==> forall t :: t in db.transactions ==> t.id != id
  {
    if !db.isOpen then Err(NotInitialized) else Ok(Lookup(db.transactions, TransactionId, id))
  }

  // ------------------------------------------------------------ listing

  /** The optional conditions of a listing; `year` and `month` only act together. */
  datatype TransactionFilter = TransactionFilter(
    ledgerId: Option<string>,
    year: Option<int>,
    month: Option<int>,
    kind: Option<TransactionType>,
    categoryId: Option<string>,
    dateFrom: Option<string>,
    dateTo: Option<string>)

  /**
   * The `WHERE` clause a filter builds, for an already resolved ledger: a month
   * prefix when both year and month are given, otherwise the inclusive date
   * range of whichever bounds are given; then the type and the category.
   */
  predicate Matches(t: Transaction, ledger: string, f: TransactionFilter) {
    && t.ledgerId == ledger
    && (if f.year.Some? && f.month.Some? then StartsWith(t.date, MonthPrefix(f.year.value, f.month.value))
        else (Given(f.dateFrom) ==> StrLe(f.dateFrom.value, t.date)) && (Given(f.dateTo) ==> StrLe(t.date, f.dateTo.value)))
    && (f.kind.Some? ==> t.kind == f.kind.value)
    && (Given(f.categoryId) ==> t.categoryId == f.categoryId.value)
  }

  /** `ORDER BY date DESC, created_at DESC` */
  predicate NewestFirst(a: Transaction, b: Transaction) {
    if a.date != b.date then StrLe(b.date, a.date) else StrLe(b.createdAt, a.createdAt)
  }

  /** The listing order is a total preorder, and it puts later dates first. */
  lemma NewestFirstIsPreorder()
    ensures TotalPreorder(NewestFirst)
    ensures forall a, b :: NewestFirst(a, b) ==> StrLe(b.date, a.date)
  {
    forall a: Transaction, b: Transaction ensures NewestFirst(a, b) || NewestFirst(b, a) {
      StrLeTotal(a.date, b.date);
      StrLeTotal(a.createdAt, b.createdAt);
    }
    forall a: Transaction, b: Transaction | NewestFirst(a, b) ensures StrLe(b.date, a.date) {
      StrLeReflexive(a.date);
    }
    forall a: Transaction, b: Transaction, c: Transaction | NewestFirst(a, b) && NewestFirst(b, c)
      ensures NewestFirst(a, c)
    {
      StrLeReflexive(a.date);
      StrLeReflexive(b.date);
      StrLeTransitive(c.date, b.date, a.date);
      if a.date == c.date {
        StrLeAntisymmetric(b.date, c.date);
        StrLeTransitive(c.createdAt, b.createdAt, a.createdAt);
      }
    }
  }

  /** The rows of the table the filter selects, in table order. */
  function Selected(txs: seq<Transaction>, ledger: string, f: TransactionFilter): (r: seq<Transaction>)
    ensures forall t :: t in r <==> t in txs && Matches(t, ledger, f)
  {
    Filter(txs, (t: Transaction) => Matches(t, ledger, f))
  }

  /** The selected rows, newest date first and, within a date, newest creation first. */
  function Listing(txs: seq<Transaction>, ledger: string, f: TransactionFilter): (r: seq<Transaction>)
    ensures forall t :: t in r <==> t in txs && Matches(t, ledger, f)
    ensures multiset(r) == multiset(Selected(txs, ledger, f))
    ensures forall i, j :: 0 <= i < j < |r| ==> StrLe(r[j].date, r[i].date)
    ensures forall i, j :: 0 <= i < j < |r| && r[i].date == r[j].date ==> StrLe(r[j].createdAt, r[i].createdAt)
  {
    NewestFirstIsPreorder();
    SortBy(Selected(txs, ledger, f), NewestFirst)
  }

  /** `getTransactions(filter)` */
  function GetTransactions(db: Store, f: TransactionFilter): (r: Result<seq<Transaction>, StoreError>)
    reads db
    ensures r.Err? ==> ResolveLedger(db, f.ledgerId) == Err(r.error)
    ensures r.Ok? ==> ResolveLedger(db, f.ledgerId).Ok?
    ensures r.Ok? ==> r.value == Listing(db.transactions, ResolveLedger(db, f.ledgerId).value, f)
  {
    var ledger :- ResolveLedger(db, f.ledgerId);
    Ok(Listing(db.transactions, ledger, f))
  }

  /** With a year and a month given, the date-range bounds play no part. */
  lemma MonthFilterIgnoresRange(txs: seq<Transaction>, ledger: string, f: TransactionFilter)
    requires f.year.Some? && f.month.Some?
    ensures Listing(txs, ledger, f) == Listing(txs, ledger, f.(dateFrom := None, dateTo := None))
  {
    var g := f.(dateFrom := None, dateTo := None);
    FilterSame(txs, (t: Transaction) => Matches(t, ledger, f), (t: Transaction) => Matches(t, ledger, g));
  }

  /**
   * For a well-formed date with a four-digit year, the month filter keeps a
   * transaction exactly when its date's year and month fields are the ones asked for.
   */
  lemma MonthFilterSelectsDate(t: Transaction, ledger: string, f: TransactionFilter)
    requires f.year.Some? && f.month.Some? && 1000 <= f.year.value <= 9999 && 1 <= f.month.value <= 12
    requires IsIsoDate(t.date) && t.date[0] != '0'
    ensures Matches(t, ledger, f) <==>
              && t.ledgerId == ledger
              && DigitsValue(t.date[..4]) == f.year.value && DigitsValue(t.date[5..7]) == f.month.value
              && (f.kind.Some? ==> t.kind == f.kind.value)
              && (Given(f.categoryId) ==> t.categoryId == f.categoryId.value)
  {
    MonthFilterSelectsMonth(t.date, f.year.value, f.month.value);
  }

  // ------------------------------------------------------------ totals

  /** `SUM(CASE WHEN type = kind THEN amount ELSE 0 END)`, in exact arithmetic. */
  function Total(txs: seq<Transaction>, kind: TransactionType): real
  {
    if txs == [] then 0.0
    else Total(txs[..|txs| - 1], kind) + (if txs[|txs| - 1].kind == kind then txs[|txs| - 1].amount else 0.0)
  }

  /** The sum of every amount, whatever its type. */
  function Amounts(txs: seq<Transaction>): real {
    if txs == [] then 0.0 else Amounts(txs[..|txs| - 1]) + txs[|txs| - 1].amount
  }

  /** Income and expense together account for every amount. */
  lemma {:induction false} TotalsAccount(txs: seq<Transaction>)
    ensures Total(txs, Income) + Total(txs, Expense) == Amounts(txs)
  {
    if txs != [] {
      TotalsAccount(txs[..|txs| - 1]);
    }
  }

  lemma {:induction false} TotalConcat(a: seq<Transaction>, b: seq<Transaction>, kind: TransactionType)
    ensures Total(a + b, kind) == Total(a, kind) + Total(b, kind)
  {
    if b == [] {
      assert a + b == a;
    } else {
      var init := b[..|b| - 1];
      assert (a + b)[..|a + b| - 1] == a + init;
      assert (a + b)[|a + b| - 1] == b[|b| - 1];
      TotalConcat(a, init, kind);
    }
  }

  /** A total does not depend on the order of the rows. */
  lemma {:induction false} TotalPermutation(s: seq<Transaction>, t: seq<Transaction>, kind: TransactionType)
    requires multiset(s) == multiset(t)
    ensures Total(s, kind) == Total(t, kind)
  {
    if s != [] {
      var init, last := s[..|s| - 1], s[|s| - 1];
      assert s == init + [last];
      assert last in multiset(t);
      var i :| 0 <= i < |t| && t[i] == last;
      var rest := t[..i] + t[i + 1..];
      assert t == t[..i] + [last] + t[i + 1..];
      assert multiset(t) == multiset(t[..i]) + multiset{last} + multiset(t[i + 1..]);
      assert multiset(rest) == multiset(t[..i]) + multiset(t[i + 1..]);
      assert multiset(s) == multiset(init) + multiset{last};
      assert multiset(init) == multiset(s) - multiset{last};
      assert multiset(rest) == multiset(t) - multiset{last};
      TotalPermutation(init, rest, kind);
      TotalConcat(t[..i] + [last], t[i + 1..], kind);
      TotalConcat(t[..i], [last], kind);
      TotalConcat(t[..i], t[i + 1..], kind);
      TotalConcat(init, [last], kind);
    }
  }

  /** What `getMonthlyStats` returns. */
  datatype MonthlyStats = MonthlyStats(totalIncome: real, totalExpense: real, transactionCount: nat)

  /** `WHERE ledger_id = ? AND date LIKE 'YYYY-MM%'` */
  function InMonth(txs: seq<Transaction>, ledger: string, year: int, month: int): (r: seq<Transaction>)
    ensures forall t :: t in r <==> t in txs && t.ledgerId == ledger && StartsWith(t.date, MonthPrefix(year, month))
  {
    Filter(txs, (t: Transaction) => t.ledgerId == ledger && StartsWith(t.date, MonthPrefix(year, month)))
  }

  /** The income and expense totals and the row count of a month; zeros for an empty month. */
  function GetMonthlyStats(db: Store, year: int, month: int, ledgerId: Option<string>): (r: Result<MonthlyStats, StoreError>)
    reads db
    ensures r.Err? ==> ResolveLedger(db, ledgerId) == Err(r.error)
    ensures r.Ok? ==> ResolveLedger(db, ledgerId).Ok?
    ensures r.Ok? ==> var rows := InMonth(db.transactions, ResolveLedger(db, ledgerId).value, year, month);
                      && r.value.transactionCount == |rows|
                      && r.value.totalIncome == Total(rows, Income)
                      && r.value.totalExpense == Total(rows, Expense)
    ensures r.Ok? ==> (forall t :: t in db.transactions ==> t.ledgerId != ResolveLedger(db, ledgerId).value)
                      ==> r.value == MonthlyStats(0.0, 0.0, 0)
  {
    var ledger :- ResolveLedger(db, ledgerId);
    var rows := InMonth(db.transactions, ledger, year, month);
    Ok(MonthlyStats(Total(rows, Income), Total(rows, Expense), |rows|))
  }

  /** The month filter of a listing, as `getTransactionsByMonth` builds it. */
  function MonthFilter(ledgerId: Option<string>, year: int, month: int): TransactionFilter {
    TransactionFilter(ledgerId, Some(year), Some(month), None, None, None, None)
  }

  /** A month filter selects exactly the rows the monthly statistics count. */
  lemma MonthSelectionIsInMonth(txs: seq<Transaction>, ledger: string, year: int, month: int)
    ensures Selected(txs, ledger, MonthFilter(Some(ledger), year, month)) == InMonth(txs, ledger, year, month)
  {
    var f := MonthFilter(Some(ledger), year, month);
    var p := (t: Transaction) => Matches(t, ledger, f);
    var q := (t: Transaction) => t.ledgerId == ledger && StartsWith(t.date, MonthPrefix(year, month));
    assert forall t :: p(t) == q(t);
    FilterSame(txs, p, q);
    assert Selected(txs, ledger, f) == Filter(txs, p);
    assert InMonth(txs, ledger, year, month) == Filter(txs, q);
  }

  /** The monthly totals are the totals of the month's listing, and the count is its length. */
  lemma StatsAgreeWithListing(txs: seq<Transaction>, ledger: string, year: int, month: int)
    ensures var listed := Listing(txs, ledger, MonthFilter(Some(ledger), year, month));
            && |listed| == |InMonth(txs, ledger, year, month)|
            && Total(listed, Income) == Total(InMonth(txs, ledger, year, month), Income)
            && Total(listed, Expense) == Total(InMonth(txs, ledger, year, month), Expense)
  {
    var listed := Listing(txs, ledger, MonthFilter(Some(ledger), year, month));
    var rows := InMonth(txs, ledger, year, month);
    MonthSelectionIsInMonth(txs, ledger, year, month);
    assert multiset(listed) == multiset(rows);
    assert |multiset(listed)| == |multiset(rows)|;
    TotalPermutation(listed, rows, Income);
    TotalPermutation(listed, rows, Expense);
  }

  // ------------------------------------------------------------ update / delete

  /** Whether an update names a field the update writes; `ledgerId` is never written. */
  predicate ChangesSomething(input: UpdateTransactionInput) {
    input.kind.Some? || input.amount.Some? || input.categoryId.Some? || input.date.Some? || input.note.Some?
  }

  /**
   * A transaction after an update: every named field replaced and a new
   * `updated_at` when any was; the ledger stays whatever the input says.
   */
  function PatchTransaction(t: Transaction, input: UpdateTransactionInput, now: string): (r: Transaction)
    ensures r.id == t.id && r.ledgerId == t.ledgerId && r.createdAt == t.createdAt
    ensures r.kind == input.kind.GetOr(t.kind) && r.amount == input.amount.GetOr(t.amount)
    ensures r.categoryId == input.categoryId.GetOr(t.categoryId) && r.date == input.date.GetOr(t.date)
    ensures r.note == input.note.GetOr(t.note)
    ensures !ChangesSomething(input) ==> r == t
    ensures ChangesSomething(input) ==> r.updatedAt == now
  {
    if !ChangesSomething(input) then t
    else t.(
      kind := input.kind.GetOr(t.kind),
      amount := input.amount.GetOr(t.amount),
      categoryId := input.categoryId.GetOr(t.categoryId),
      date := input.date.GetOr(t.date),
      note := input.note.GetOr(t.note),
      updatedAt := now)
  }

  /** Applying the same update twice is applying it once (with the later time). */
  lemma PatchTransactionIdempotent(t: Transaction, input: UpdateTransactionInput, now1: string, now2: string)
    ensures PatchTransaction(PatchTransaction(t, input, now1), input, now2) == PatchTransaction(t, input, now2)
  {
  }

  /** `UPDATE transactions SET ... WHERE id = ?`: every row with the id is patched. */
  function UpdateTransactionRows(txs: seq<Transaction>, id: string, input: UpdateTransactionInput, now: string)
    : (r: seq<Transaction>)
    ensures |r| == |txs|
    ensures forall i :: 0 <= i < |txs| ==> r[i] == if txs[i].id == id then PatchTransaction(txs[i], input, now) else txs[i]
    ensures UniqueKeys(txs, TransactionId) ==> UniqueKeys(r, TransactionId)
  {
    var r := seq(|txs|, i requires 0 <= i < |txs| => if txs[i].id == id then PatchTransaction(txs[i], input, now) else txs[i]);
    assert forall i :: 0 <= i < |txs| ==> TransactionId(r[i]) == TransactionId(txs[i]);
    r
  }

  /**
   * Updates a transaction and returns it as stored afterwards (None for an
   * unknown id); an update naming no writable field changes nothing.
   */
  method UpdateTransaction(db: Store, id: string, input: UpdateTransactionInput, now: string)
    returns (r: Result<Option<Transaction>, StoreError>)
    requires db.Valid()
    modifies db`transactions
    ensures db.Valid()
    ensures !old(db.isOpen) ==> r == Err(NotInitialized) && db.transactions == old(db.transactions)
    ensures old(db.isOpen) ==> db.transactions == UpdateTransactionRows(old(db.transactions), id, input, now)
    ensures old(db.isOpen) ==> r == Ok(Lookup(db.transactions, TransactionId, id))
    ensures old(db.isOpen) ==> match Lookup(old(db.transactions), TransactionId, id)
                                case None => r == Ok(None)
                                case Some(t) => r == Ok(Some(PatchTransaction(t, input, now)))
  {
    if !db.isOpen {
      return Err(NotInitialized);
    }
    if !ChangesSomething(input) {
      assert UpdateTransactionRows(db.transactions, id, input, now) == db.transactions;
      return Ok(Lookup(db.transactions, TransactionId, id));
    }
    ghost var before := db.transactions;
    db.transactions := UpdateTransactionRows(db.transactions, id, input, now);
    match IndexOf(before, TransactionId, id) {
      case None =>
      case Some(k) =>
        LookupUnique(db.transactions, TransactionId, k);
    }
    return Ok(Lookup(db.transactions, TransactionId, id));
  }

  /** Deletes a transaction; false when there is none with the id. Afterwards there is none. */
  method DeleteTransaction(db: Store, id: string) returns (r: Result<bool, StoreError>)
    requires db.Valid()
    modifies db`transactions
    ensures db.Valid()
    ensures !old(db.isOpen) ==> r == Err(NotInitialized) && db.transactions == old(db.transactions)
    ensures old(db.isOpen) ==> match Lookup(old(db.transactions), TransactionId, id)
      case None => r == Ok(false) && db.transactions == old(db.transactions)
      case Some(_) => r == Ok(true) && db.transactions == RemoveKey(old(db.transactions), TransactionId, id)
    ensures old(db.isOpen) ==> Lookup(db.transactions, TransactionId, id).None?
    ensures |db.transactions| + (if r == Ok(true) then 1 else 0) == |old(db.transactions)|
  {
    var existing := GetTransactionById(db, id);
    if existing.Err? {
      return Err(existing.error);
    }
    if existing.value.None? {
      return Ok(false);
    }
    var k := IndexOf(db.transactions, TransactionId, id).value;
    RemovePresentKey(db.transactions, TransactionId, k);
    RemoveKeepsUnique(db.transactions, TransactionId, id);
    db.transactions := RemoveKey(db.transactions, TransactionId, id);
    return Ok(true);
  }

  // ------------------------------------------------------------ by day

  /** One day of a month: its transactions in listing order and their income and expense totals. */
  datatype DayGroup = DayGroup(date: string, transactions: seq<Transaction>, totalIncome: real, totalExpense: real)

  function DayDate(g: DayGroup): string { g.date }

  /** The transactions dated `d`, in the order given. */
  function OnDate(txs: seq<Transaction>, d: string): seq<Transaction>
  {
    if txs == [] then []
    else OnDate(txs[..|txs| - 1], d) + (if txs[|txs| - 1].date == d then [txs[|txs| - 1]] else [])
  }

  /** A day's group holds exactly the transactions of that date. */
  lemma {:induction false} OnDateMembers(txs: seq<Transaction>, d: string)
    ensures forall t :: t in OnDate(txs, d) <==> t in txs && t.date == d
  {
    if txs != [] {
      var init := txs[..|txs| - 1];
      assert txs == init + [txs[|txs| - 1]];
      OnDateMembers(init, d);
    }
  }

  /** A date that no row carries has an empty group. */
  lemma {:induction false} OnDateAbsent(txs: seq<Transaction>, d: string)
    requires forall k :: 0 <= k < |txs| ==> txs[k].date != d
    ensures OnDate(txs, d) == []
  {
    if txs != [] {
      OnDateAbsent(txs[..|txs| - 1], d);
    }
  }

  lemma OnDateAppend(txs: seq<Transaction>, x: Transaction, d: string)
    ensures OnDate(txs + [x], d) == OnDate(txs, d) + (if x.date == d then [x] else [])
  {
    assert (txs + [x])[..|txs|] == txs;
  }

  /** `result.sort((a, b) => b.date.localeCompare(a.date))` */
  predicate LaterDay(a: DayGroup, b: DayGroup) {
    StrLe(b.date, a.date)
  }

  lemma LaterDayIsPreorder()
    ensures TotalPreorder(LaterDay)
  {
    forall a: DayGroup, b: DayGroup ensures LaterDay(a, b) || LaterDay(b, a) {
      StrLeTotal(a.date, b.date);
    }
    forall a: DayGroup, b: DayGroup, c: DayGroup | LaterDay(a, b) && LaterDay(b, c) ensures LaterDay(a, c) {
      StrLeTransitive(c.date, b.date, a.date);
    }
  }

  /**
   * What grouping a listing by day promises: one group per date that occurs,
   * latest date first; each group holds exactly that date's transactions in
   * listing order, and its income and expense totals.
   */
  ghost predicate GroupedByDay(groups: seq<DayGroup>, listed: seq<Transaction>) {
    && (forall i, j :: 0 <= i < j < |groups| ==> StrLe(groups[j].date, groups[i].date) && groups[i].date != groups[j].date)
    && (forall g :: g in groups ==> g.transactions == OnDate(listed, g.date) && g.transactions != [])
    && (forall g :: g in groups ==> g.totalIncome == Total(g.transactions, Income) && g.totalExpense == Total(g.transactions, Expense))
    && (forall t :: t in listed ==> exists g :: g in groups && g.date == t.date)
  }

  /**
   * The state of grouping a listing's `prefix` by date: `grouped` maps each date
   * seen so far to its rows, and `dates` lists its keys, each once, in the order
   * they were first seen.
   */
  ghost predicate Grouping(prefix: seq<Transaction>, dates: seq<string>, grouped: map<string, seq<Transaction>>) {
    && (forall a, b :: 0 <= a < b < |dates| ==> dates[a] != dates[b])
    && (forall d :: d in grouped <==> d in dates)
    && (forall d :: d in grouped ==> grouped[d] == OnDate(prefix, d) && grouped[d] != [])
    && (forall k :: 0 <= k < |prefix| ==> prefix[k].date in grouped)
  }

  /** Adding one transaction to its date's group, creating the group when the date is new. */
  lemma GroupStep(prefix: seq<Transaction>, tx: Transaction, dates: seq<string>, grouped: map<string, seq<Transaction>>)
    requires Grouping(prefix, dates, grouped)
    ensures Grouping(prefix + [tx],
                     if tx.date in grouped then dates else dates + [tx.date],
                     grouped[tx.date := (if tx.date in grouped then grouped[tx.date] else []) + [tx]])
  {
    if tx.date !in grouped {
      OnDateAbsent(prefix, tx.date);
    }
    forall d ensures OnDate(prefix + [tx], d) == OnDate(prefix, d) + (if tx.date == d then [tx] else []) {
      OnDateAppend(prefix, tx, d);
    }
  }

  /**
   * Groups a listing by date, keeping the order in which dates first occur;
   * `dates` is the key order of the resulting map.
   */
  method GroupByDate(listed: seq<Transaction>) returns (dates: seq<string>, grouped: map<string, seq<Transaction>>)
    ensures Grouping(listed, dates, grouped)
  {
    dates, grouped := [], map[];
    var i := 0;
    while i < |listed|
      invariant 0 <= i <= |listed|
      invariant Grouping(listed[..i], dates, grouped)
    {
      var tx := listed[i];
      PrefixGrows(listed, i);
      GroupStep(listed[..i], tx, dates, grouped);
      var existing := if tx.date in grouped then grouped[tx.date] else [];
      if tx.date !in grouped {
        dates := dates + [tx.date];
      }
      grouped := grouped[tx.date := existing + [tx]];
      i := i + 1;
    }
    assert listed[..|listed|] == listed;
  }

  /** One day's income and expense totals, summed in order. */
  method DayTotals(txs: seq<Transaction>) returns (totalIncome: real, totalExpense: real)
    ensures totalIncome == Total(txs, Income) && totalExpense == Total(txs, Expense)
  {
    totalIncome, totalExpense := 0.0, 0.0;
    var m := 0;
    while m < |txs|
      invariant 0 <= m <= |txs|
      invariant totalIncome == Total(txs[..m], Income) && totalExpense == Total(txs[..m], Expense)
    {
      assert txs[..m + 1][..m] == txs[..m];
      if txs[m].kind == Income {
        totalIncome := totalIncome + txs[m].amount;
      } else {
        totalExpense := totalExpense + txs[m].amount;
      }
      m := m + 1;
    }
    assert txs[..|txs|] == txs;
  }

  /** `result` holds one group per key of `grouped`, in key order, with that day's totals. */
  ghost predicate BuiltInKeyOrder(dates: seq<string>, grouped: map<string, seq<Transaction>>, result: seq<DayGroup>)
    requires forall d :: d in dates ==> d in grouped
  {
    && |result| == |dates|
    && forall k :: 0 <= k < |dates| ==>
         result[k] == DayGroup(dates[k], grouped[dates[k]], Total(grouped[dates[k]], Income), Total(grouped[dates[k]], Expense))
  }

  /** One group per key of the map, in key order, each with its day's totals. */
  method DayGroups(dates: seq<string>, grouped: map<string, seq<Transaction>>) returns (result: seq<DayGroup>)
    requires forall d :: d in dates ==> d in grouped
    ensures BuiltInKeyOrder(dates, grouped, result)
  {
    result := [];
    var j := 0;
    while j < |dates|
      invariant 0 <= j <= |dates|
      invariant BuiltInKeyOrder(dates[..j], grouped, result)
    {
      var totalIncome, totalExpense := DayTotals(grouped[dates[j]]);
      PrefixGrows(dates, j);
      result := result + [DayGroup(dates[j], grouped[dates[j]], totalIncome, totalExpense)];
      j := j + 1;
    }
    assert dates[..|dates|] == dates;
  }

  lemma SortedDatesDistinct(listed: seq<Transaction>, dates: seq<string>, grouped: map<string, seq<Transaction>>,
                            result: seq<DayGroup>, sorted: seq<DayGroup>)
    requires Grouping(listed, dates, grouped) && BuiltInKeyOrder(dates, grouped, result)
    requires multiset(sorted) == multiset(result)
    ensures forall i, j :: 0 <= i < j < |sorted| ==> sorted[i].date != sorted[j].date
  {
    forall a, b | 0 <= a < b < |result| ensures DayDate(result[a]) != DayDate(result[b]) {
      assert result[a].date == dates[a] && result[b].date == dates[b];
    }
    PermutationKeepsUniqueKeys(result, sorted, DayDate);
  }

  lemma SortedGroupsHoldTheirDay(listed: seq<Transaction>, dates: seq<string>, grouped: map<string, seq<Transaction>>,
                                 result: seq<DayGroup>, sorted: seq<DayGroup>)
    requires Grouping(listed, dates, grouped) && BuiltInKeyOrder(dates, grouped, result)
    requires forall g :: g in sorted ==> g in result
    ensures forall g :: g in sorted ==> g.transactions == OnDate(listed, g.date) && g.transactions != []
    ensures forall g :: g in sorted ==> g.totalIncome == Total(g.transactions, Income) && g.totalExpense == Total(g.transactions, Expense)
  {
    forall g | g in sorted
      ensures g.transactions == OnDate(listed, g.date) && g.transactions != []
      ensures g.totalIncome == Total(g.transactions, Income) && g.totalExpense == Total(g.transactions, Expense)
    {
      var k :| 0 <= k < |result| && result[k] == g;
      assert dates[k] in grouped;
    }
  }

  lemma EveryRowHasGroup(listed: seq<Transaction>, dates: seq<string>, grouped: map<string, seq<Transaction>>,
                         result: seq<DayGroup>, sorted: seq<DayGroup>)
    requires Grouping(listed, dates, grouped) && BuiltInKeyOrder(dates, grouped, result)
    requires forall g :: g in result ==> g in sorted
    ensures forall t :: t in listed ==> exists g :: g in sorted && g.date == t.date
  {
    forall t | t in listed ensures exists g :: g in sorted && g.date == t.date {
      var k :| 0 <= k < |listed| && listed[k] == t;
      assert t.date in grouped;
      var n :| 0 <= n < |dates| && dates[n] == t.date;
      assert result[n] in sorted;
    }
  }

  /** The groups built in key order, once sorted by date, are the listing grouped by day. */
  lemma SortedGroupsByDay(listed: seq<Transaction>, dates: seq<string>, grouped: map<string, seq<Transaction>>,
                          result: seq<DayGroup>)
    requires Grouping(listed, dates, grouped) && BuiltInKeyOrder(dates, grouped, result)
    ensures GroupedByDay(SortBy(result, LaterDay), listed)
  {
    LaterDayIsPreorder();
    var sorted := SortBy(result, LaterDay);
    SortedDatesDistinct(listed, dates, grouped, result, sorted);
    SortedGroupsHoldTheirDay(listed, dates, grouped, result, sorted);
    EveryRowHasGroup(listed, dates, grouped, result, sorted);
  }

  /** The month's listing, grouped by day with per-day totals, latest day first. */
  method GetTransactionsByMonth(db: Store, year: int, month: int, ledgerId: Option<string>)
    returns (r: Result<seq<DayGroup>, StoreError>)
    ensures r.Err? ==> GetTransactions(db, MonthFilter(ledgerId, year, month)) == Err(r.error)
    ensures r.Ok? ==> GetTransactions(db, MonthFilter(ledgerId, year, month)).Ok?
    ensures r.Ok? ==> GroupedByDay(r.value, GetTransactions(db, MonthFilter(ledgerId, year, month)).value)
  {
    var listing := GetTransactions(db, MonthFilter(ledgerId, year, month));
    if listing.Err? {
      return Err(listing.error);
    }
    var listed := listing.value;
    var dates, grouped := GroupByDate(listed);
    var result := DayGroups(dates, grouped);
    SortedGroupsByDay(listed, dates, grouped, result);
    return Ok(SortBy(result, LaterDay));
  }

  // ------------------------------------------------------------ months with data

  /** `substr(date, 1, 7)`: `YYYY-MM` for a well-formed date. */
  function MonthOf(date: string): string {
    if |date| >= 7 then date[..7] else date
  }

  /** The distinct months of a ledger's rows, in the order they first occur in the table. */
  function MonthsOf(txs: seq<Transaction>, ledger: string): (r: seq<string>)
    ensures forall m :: m in r <==> exists t :: t in txs && t.ledgerId == ledger && MonthOf(t.date) == m
    ensures forall a, b :: 0 <= a < b < |r| ==> r[a] != r[b]
  {
    if txs == [] then []
    else
      var init, last := txs[..|txs| - 1], txs[|txs| - 1];
      assert txs == init + [last];
      var r := MonthsOf(init, ledger);
      if last.ledgerId == ledger && MonthOf(last.date) !in r then r + [MonthOf(last.date)] else r
  }

  /** `ORDER BY month DESC` */
  predicate LaterMonth(a: string, b: string) {
    StrLe(b, a)
  }

  lemma LaterMonthIsPreorder()
    ensures TotalPreorder(LaterMonth)
  {
    forall a: string, b: string ensures LaterMonth(a, b) || LaterMonth(b, a) {
      StrLeTotal(a, b);
    }
    forall a: string, b: string, c: string | LaterMonth(a, b) && LaterMonth(b, c) ensures LaterMonth(a, c) {
      StrLeTransitive(c, b, a);
    }
  }

  /** `SELECT DISTINCT substr(date, 1, 7) AS month ... ORDER BY month DESC` for one ledger. */
  function MonthsWithData(txs: seq<Transaction>, ledger: string): (r: seq<string>)
    ensures forall m :: m in r <==> exists t :: t in txs && t.ledgerId == ledger && MonthOf(t.date) == m
    ensures forall i, j :: 0 <= i < j < |r| ==> StrLe(r[j], r[i]) && r[i] != r[j]
  {
    LaterMonthIsPreorder();
    var months := MonthsOf(txs, ledger);
    var r := SortBy(months, LaterMonth);
    PermutationKeepsDistinct(months, r);
    r
  }

  /** `getMonthsWithData(ledgerId)` */
  function GetMonthsWithData(db: Store, ledgerId: Option<string>): (r: Result<seq<string>, StoreError>)
    reads db
    ensures r.Err? ==> ResolveLedger(db, ledgerId) == Err(r.error)
    ensures r.Ok? ==> ResolveLedger(db, ledgerId).Ok?
    ensures r.Ok? ==> r.value == MonthsWithData(db.transactions, ResolveLedger(db, ledgerId).value)
  {
    var ledger :- ResolveLedger(db, ledgerId);
    Ok(MonthsWithData(db.transactions, ledger))
  }

  // ------------------------------------------------------------ latest month

  /** `SELECT date ... ORDER BY date DESC LIMIT 1`: a ledger's latest date, if it has rows. */
  function LatestDate(txs: seq<Transaction>, ledger: string): (r: Option<string>)
    ensures r.None? <==> forall t :: t in txs ==> t.ledgerId != ledger
    ensures r.Some? ==> exists t :: t in txs && t.ledgerId == ledger && t.date == r.value
  {
    if txs == [] then None
    else
      var init, last := txs[..|txs| - 1], txs[|txs| - 1];
      assert txs == init + [last];
      var prev := LatestDate(init, ledger);
      if last.ledgerId != ledger then prev
      else if prev.None? || StrLe(prev.value, last.date) then Some(last.date)
      else prev
  }

  /** No row of the ledger is dated after the latest date. */
  lemma {:induction false} LatestDateIsLatest(txs: seq<Transaction>, ledger: string)
    ensures forall t :: t in txs && t.ledgerId == ledger ==> StrLe(t.date, LatestDate(txs, ledger).value)
  {
    if txs != [] {
      var init, last := txs[..|txs| - 1], txs[|txs| - 1];
      assert txs == init + [last];
      LatestDateIsLatest(init, ledger);
      var prev := LatestDate(init, ledger);
      var latest := LatestDate(txs, ledger);
      forall t | t in txs && t.ledgerId == ledger ensures StrLe(t.date, latest.value) {
        if t == last {
          StrLeReflexive(t.date);
          if latest != Some(last.date) {
            StrLeTotal(prev.value, last.date);
          }
        } else {
          assert t in init;
          if latest != prev {
            StrLeTransitive(t.date, prev.value, last.date);
          }
        }
      }
    }
  }

  /** What `Number(s)` gives for a field of a split date; `undefined` for a missing field. */
  datatype NumberValue = Num(value: int) | NaN | Undefined

  function ToNumberValue(s: string): NumberValue {
    match ToNumber(s)
    case Some(n) => Num(n)
    case None => NaN
  }

  /** The `{ year, month }` pair `getLatestTransactionMonth` returns. */
  datatype YearMonth = YearMonth(year: NumberValue, month: NumberValue)

  /** `const [year, month] = date.split('-').map(Number)` */
  function ParseYearMonth(date: string): YearMonth {
    var parts := Split(date, '-');
    YearMonth(ToNumberValue(parts[0]), if |parts| >= 2 then ToNumberValue(parts[1]) else Undefined)
  }

  /** A `YYYY-MM-DD` date parses to its year and month. */
  lemma ParseIsoDate(date: string)
    requires IsIsoDate(date)
    ensures ParseYearMonth(date) == YearMonth(Num(DigitsValue(date[..4])), Num(DigitsValue(date[5..7])))
  {
    SplitIsoDate(date);
  }

  /** A date without '-' has no month field, so the month comes back `undefined`. */
  lemma ParseWithoutDash(date: string)
    requires '-' !in date
    ensures ParseYearMonth(date).month == Undefined
    ensures ParseYearMonth(date).year == ToNumberValue(date)
  {
    SplitWithoutSeparator(date, '-');
  }

  /** The year and month of the ledger's latest transaction, or None when it has none. */
  function GetLatestTransactionMonth(db: Store, ledgerId: Option<string>): (r: Result<Option<YearMonth>, StoreError>)
    reads db
    ensures r.Err? ==> ResolveLedger(db, ledgerId) == Err(r.error)
    ensures r.Ok? ==> ResolveLedger(db, ledgerId).Ok?
    ensures r.Ok? ==> (r.value.None? <==> forall t :: t in db.transactions ==> t.ledgerId != ResolveLedger(db, ledgerId).value)
    ensures r.Ok? && r.value.Some? ==>
      exists t :: && t in db.transactions && t.ledgerId == ResolveLedger(db, ledgerId).value
                  && r.value.value == ParseYearMonth(t.date)
                  && forall u :: u in db.transactions && u.ledgerId == t.ledgerId ==> StrLe(u.date, t.date)
  {
    var ledger :- ResolveLedger(db, ledgerId);
    LatestDateIsLatest(db.transactions, ledger);
    match LatestDate(db.transactions, ledger)
    case None => Ok(None)
    case Some(date) => Ok(Some(ParseYearMonth(date)))
  }

  /** The first entry of a descending list is no earlier than any entry. */
  lemma FirstIsLatest(r: seq<string>, m: string)
    requires m in r
    requires forall i, j :: 0 <= i < j < |r| ==> StrLe(r[j], r[i])
    ensures StrLe(m, r[0])
  {
    if m == r[0] {
      StrLeReflexive(m);
    }
  }

  /** Every month of the ledger's rows is no later than the month of its latest date. */
  lemma MonthNoLaterThanLatest(txs: seq<Transaction>, ledger: string, u: Transaction)
    requires u in txs && u.ledgerId == ledger
    requires |u.date| >= 7 && |LatestDate(txs, ledger).value| >= 7
    ensures StrLe(MonthOf(u.date), MonthOf(LatestDate(txs, ledger).value))
  {
    LatestDateIsLatest(txs, ledger);
    StrLePrefix(u.date, LatestDate(txs, ledger).value, 7);
  }

  /**
   * For a ledger with rows whose dates are well formed, the month of the latest
   * transaction is the first of the months with data.
   */
  lemma LatestMonthLeadsMonths(txs: seq<Transaction>, ledger: string)
    requires forall t :: t in txs && t.ledgerId == ledger ==> IsIsoDate(t.date)
    requires exists t :: t in txs && t.ledgerId == ledger
    ensures LatestDate(txs, ledger).Some? && MonthsWithData(txs, ledger) != []
    ensures MonthsWithData(txs, ledger)[0] == MonthOf(LatestDate(txs, ledger).value)
  {
    var d := LatestDate(txs, ledger).value;
    var t :| t in txs && t.ledgerId == ledger && t.date == d;
    assert |d| == 10;
    var months := MonthsWithData(txs, ledger);
    assert MonthOf(d) in months;
    assert months[0] in months;
    var u :| u in txs && u.ledgerId == ledger && MonthOf(u.date) == months[0];
    assert |u.date| == 10;
    MonthNoLaterThanLatest(txs, ledger, u);
    FirstIsLatest(months, MonthOf(d));
    StrLeAntisymmetric(months[0], MonthOf(d));
  }
}
