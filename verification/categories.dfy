/** The first-generation category record: a two-valued category type with its string form. */
module Categories {
  import opened Wrappers

  datatype CategoryType = Expense | Income

  datatype Category = Category(categoryType: CategoryType, name: string, id: string)

  /** The string form of a category type; parsing it gives the type back, so distinct types
      have distinct forms. */
  function AsStr(t: CategoryType): (s: string)
    ensures s == "Expense" <==> t == Expense
    ensures s == "Income" <==> t == Income
    ensures FromStr(s) == Some(t)
  {
    match t
    case Expense => "Expense"
    case Income => "Income"
  }

  /** Parses exactly the two string forms; any other string, case variants included, is None. */
  function FromStr(s: string): (r: Option<CategoryType>)
    ensures r == Some(Expense) <==> s == "Expense"
    ensures r == Some(Income) <==> s == "Income"
    ensures r.None? <==> s != "Expense" && s != "Income"
  {
    if s == "Expense" then Some(Expense)
    else if s == "Income" then Some(Income)
    else None
  }

  /** A new category has the given type and name and an empty id. */
  function New(categoryType: CategoryType, name: string): (c: Category)
    ensures c.categoryType == categoryType && c.name == name && c.id == ""
  {
    Category(categoryType, name, "")
  }

  /** A category with the given type, name and id. */
  function NewWithId(categoryType: CategoryType, name: string, id: string): (c: Category)
    ensures c.categoryType == categoryType && c.name == name && c.id == id
    ensures id == "" ==> c == New(categoryType, name)
  {
    Category(categoryType, name, id)
  }
}
