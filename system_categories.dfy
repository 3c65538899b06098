/**
 * The categories the application ships with. Each has a permanent id of the
 * form `sys_{type}_{key}`; name, icon, sort order and the deprecated mark may
 * change between releases and are re-synced into the store on every start.
 */
module SystemCategories {
  import opened Wrappers
  import opened Types

  /** One shipped category definition; `deprecated` may be left out. */
  datatype SystemCategoryConfig = SystemCategoryConfig(
    id: string,
    name: string,
    icon: string,
    kind: TransactionType,
    sortOrder: int,
    deprecated: Option<bool>)

  const SYSTEM_CATEGORIES: seq<SystemCategoryConfig> := [
    // expense
    SystemCategoryConfig("sys_expense_food", "餐饮", "餐", Expense, 0, None),
    SystemCategoryConfig("sys_expense_transport", "交通", "交", Expense, 1, None),
    SystemCategoryConfig("sys_expense_shopping", "购物", "购", Expense, 2, None),
    SystemCategoryConfig("sys_expense_housing", "居住", "居", Expense, 3, None),
    SystemCategoryConfig("sys_expense_entertain", "娱乐", "娱", Expense, 4, None),
    SystemCategoryConfig("sys_expense_medical", "医疗", "医", Expense, 5, None),
    SystemCategoryConfig("sys_expense_education", "教育", "教", Expense, 6, None),
    SystemCategoryConfig("sys_expense_social", "人情", "人", Expense, 7, None),
    // income
    SystemCategoryConfig("sys_income_salary", "工资", "工", Income, 0, None),
    SystemCategoryConfig("sys_income_bonus", "奖金", "奖", Income, 1, None),
    SystemCategoryConfig("sys_income_investment", "投资收益", "投", Income, 2, None),
    SystemCategoryConfig("sys_income_other", "其他", "其", Income, 3, None)
  ]

  /** `deprecated ? 1 : 0`: a definition that leaves the flag out is not deprecated. */
  predicate DeprecatedFlag(def: SystemCategoryConfig) {
    def.deprecated == Some(true)
  }

  predicate IdsDistinct(defs: seq<SystemCategoryConfig>) {
    forall i, j :: 0 <= i < j < |defs| ==> defs[i].id != defs[j].id
  }

  /** `id` is `sys_{type}_{key}` with a non-empty key and `{type}` the entry's own type. */
  predicate HasSystemIdForm(def: SystemCategoryConfig) {
    var prefix := "sys_" + TypeName(def.kind) + "_";
    |prefix| < |def.id| && def.id[..|prefix|] == prefix
  }

  lemma SystemCategoryIdsDistinct()
    ensures IdsDistinct(SYSTEM_CATEGORIES)
  {
  }

  lemma ExpenseIdsHaveTypePrefix()
    ensures forall i :: 0 <= i < 8 ==> HasSystemIdForm(SYSTEM_CATEGORIES[i])
  {
  }

  lemma IncomeIdsHaveTypePrefix()
    ensures forall i :: 8 <= i < 12 ==> HasSystemIdForm(SYSTEM_CATEGORIES[i])
  {
  }

  lemma SystemCategoryIdsHaveTypePrefix()
    ensures forall i :: 0 <= i < |SYSTEM_CATEGORIES| ==> HasSystemIdForm(SYSTEM_CATEGORIES[i])
  {
    ExpenseIdsHaveTypePrefix();
    IncomeIdsHaveTypePrefix();
  }

  /**
   * The eight expense entries come first with sort orders 0..7, then the four
   * income entries with 0..3: within each type the orders count up from zero.
   */
  lemma SystemSortOrdersCountFromZero()
    ensures |SYSTEM_CATEGORIES| == 12
    ensures forall i :: 0 <= i < 8 ==> SYSTEM_CATEGORIES[i].kind == Expense && SYSTEM_CATEGORIES[i].sortOrder == i
    ensures forall i :: 8 <= i < 12 ==> SYSTEM_CATEGORIES[i].kind == Income && SYSTEM_CATEGORIES[i].sortOrder == i - 8
  {
  }

  lemma NoSystemCategoryDeprecated()
    ensures forall def :: def in SYSTEM_CATEGORIES ==> def.deprecated == None && !DeprecatedFlag(def)
  {
  }

  lemma SystemIconIsFirstCharacterOfName()
    ensures forall i :: 0 <= i < |SYSTEM_CATEGORIES| ==> |SYSTEM_CATEGORIES[i].name| >= 1 && SYSTEM_CATEGORIES[i].icon == SYSTEM_CATEGORIES[i].name[..1]
  {
  }
}
