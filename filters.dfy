/** The filter vocabulary both grammars produce and both `Apply` functions consume:
    the `FilterOperator` enumeration and one `FilterCriteria`. */
module Filters {

  /** `FilterOperator`, in declaration order. */
  datatype FilterOperator = Eq | Neq | Gt | Gteq | Lt | Lteq | Sw | Ew | Like

  /** One criterion: the property path (one name per dotted segment), the operator,
      the literal still in text form, and whether it joins the terms before it with OR. */
  datatype FilterCriteria = FilterCriteria(
    propertyPath: seq<string>,
    operator: FilterOperator,
    value: string,
    isOrCondition: bool)

  /** The member name of each operator, the text `Enum.TryParse` recognises. */
  function OperatorName(op: FilterOperator): string {
    match op
    case Eq => "Eq"
    case Neq => "Neq"
    case Gt => "Gt"
    case Gteq => "Gteq"
    case Lt => "Lt"
    case Lteq => "Lteq"
    case Sw => "Sw"
    case Ew => "Ew"
    case Like => "Like"
  }
}
