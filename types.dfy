/**
 * The record shapes of the finance tracker: ledgers, categories and
 * transactions as they are stored, the inputs for creating and updating them,
 * and the errors the persistence layer raises.
 */
module Types {
  import opened Wrappers

  /** A transaction or category is exactly income or expense. */
  datatype TransactionType = Income | Expense

  /** The text the `type` column stores. */
  function TypeName(t: TransactionType): (s: string)
    ensures ParseTransactionType(s) == Some(t)
  {
    match t
    case Income => "income"
    case Expense => "expense"
  }

  /** The `CHECK(type IN ('income', 'expense'))` constraint, read back as a type. */
  function ParseTransactionType(s: string): (r: Option<TransactionType>)
    ensures r.Some? <==> (s == "income" || s == "expense")
  {
    if s == "income" then Some(Income)
    else if s == "expense" then Some(Expense)
    else None
  }

  /** A money-tracking container. */
  datatype Ledger = Ledger(
    id: string,
    name: string,
    icon: string,
    color: string,
    isDefault: bool,
    sortOrder: int,
    createdAt: string,
    updatedAt: string)

  /** One recorded money movement; the sign comes from `type`, not from `amount`. */
  datatype Transaction = Transaction(
    id: string,
    ledgerId: string,
    kind: TransactionType,
    amount: real,
    categoryId: string,
    date: string,
    note: string,
    createdAt: string,
    updatedAt: string)

  /** A classification of transactions, shared by every ledger (it has no ledger reference). */
  datatype Category = Category(
    id: string,
    name: string,
    icon: string,
    kind: TransactionType,
    isSystem: bool,
    isActive: bool,
    sortOrder: int,
    deprecated: bool,
    createdAt: string,
    updatedAt: string)

  function LedgerId(l: Ledger): string { l.id }
  function CategoryId(c: Category): string { c.id }
  function TransactionId(t: Transaction): string { t.id }

  /** A ledger without its generated fields (id and timestamps). */
  datatype CreateLedgerInput = CreateLedgerInput(
    name: string,
    icon: string,
    color: string,
    isDefault: bool,
    sortOrder: int)

  /**
   * A transaction without its generated fields. The ledger and the note may be
   * left out (None) by the caller of `createTransaction`.
   */
  datatype CreateTransactionInput = CreateTransactionInput(
    ledgerId: Option<string>,
    kind: TransactionType,
    amount: real,
    categoryId: string,
    date: string,
    note: Option<string>)

  /** A category without its generated fields. */
  datatype CreateCategoryInput = CreateCategoryInput(
    name: string,
    icon: string,
    kind: TransactionType,
    isSystem: bool,
    isActive: bool,
    sortOrder: int,
    deprecated: bool)

  /** Every caller-settable ledger field, each optional; id and timestamps are absent. */
  datatype UpdateLedgerInput = UpdateLedgerInput(
    name: Option<string>,
    icon: Option<string>,
    color: Option<string>,
    isDefault: Option<bool>,
    sortOrder: Option<int>)

  /** Every caller-settable transaction field, each optional; id and timestamps are absent. */
  datatype UpdateTransactionInput = UpdateTransactionInput(
    ledgerId: Option<string>,
    kind: Option<TransactionType>,
    amount: Option<real>,
    categoryId: Option<string>,
    date: Option<string>,
    note: Option<string>)

  /** Every caller-settable category field, each optional; id and timestamps are absent. */
  datatype UpdateCategoryInput = UpdateCategoryInput(
    name: Option<string>,
    icon: Option<string>,
    kind: Option<TransactionType>,
    isSystem: Option<bool>,
    isActive: Option<bool>,
    sortOrder: Option<int>,
    deprecated: Option<bool>)

  /** The ledger a create input describes, with its generated id and timestamps. */
  function NewLedger(input: CreateLedgerInput, id: string, now: string): (l: Ledger)
    ensures LedgerInput(l) == input
    ensures l.id == id && l.createdAt == now && l.updatedAt == now
  {
    Ledger(id, input.name, input.icon, input.color, input.isDefault, input.sortOrder, now, now)
  }

  /** The caller-supplied part of a ledger: everything but id and timestamps. */
  function LedgerInput(l: Ledger): CreateLedgerInput {
    CreateLedgerInput(l.name, l.icon, l.color, l.isDefault, l.sortOrder)
  }

  /** The errors the persistence layer raises instead of returning. */
  datatype StoreError =
    | NotInitialized
    // The TypeError of dereferencing the closed handle without `getDatabase()`
    | NullHandle
    | DefaultLedgerNotFound
    | SystemCategoryUndeletable
    | CategoryInUse(transactions: nat)
    | DefaultLedgerUndeletable
    | LedgerInUse(transactions: nat)

  /** `x ? 1 : 0`, the way booleans are written to the store. */
  function BoolToFlag(b: bool): (n: int)
    ensures FlagToBool(n) == b
    ensures n == 0 || n == 1
  {
    if b then 1 else 0
  }

  /** `Boolean(n)`, the way a stored 0/1 column is read back. */
  function FlagToBool(n: int): bool {
    n != 0
  }
}
