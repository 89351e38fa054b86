/**
 * The filter builder's data: a condition is one clause of the query, and the
 * two tables say which fields the builder offers and which operators each
 * field allows (src/components/JQLBuilder.tsx:66-98).
 */
module JqlModel {

  /** A condition's value is a single string or, for multi-value fields, a list of strings. */
  datatype Value = Str(s: string) | List(items: seq<string>)

  /**
   * One condition. `field` and `operator` are "" when missing; `logic` is the
   * connective to the NEXT condition and is "" when absent.
   */
  datatype Condition = Condition(id: string, field: string, operator: string, value: Value, logic: string)

  /** The values of FIELD_OPTIONS, in display order. */
  const FieldOptions: seq<string> := [
    "worklogAuthor", "worklogDate", "project", "issuetype", "parent", "updatedDate", "createdDate",
    "resolution", "text", "issueFunction", "key", "summary", "comment", "custom"
  ]

  const DateOperators: seq<string> := [">=", "<=", ">", "<", "="]

  /** The operator values of OPERATORS[field]; [] where the table has no entry. */
  function Operators(field: string): seq<string> {
    match field
    case "worklogAuthor" => ["in", "not in"]
    case "worklogDate" => DateOperators
    case "updatedDate" => DateOperators
    case "createdDate" => DateOperators
    case "project" => ["=", "!=", "in"]
    case "issuetype" => ["=", "in"]
    case "parent" => ["=", "!="]
    case "resolution" => ["=", "!="]
    case "text" => ["~", "!~"]
    case "issueFunction" => ["in"]
    case "summary" => ["~", "!~"]
    case "comment" => ["~"]
    case "key" => ["=", "in"]
    case "custom" => ["none"]
    case _ => []
  }

  /** The two tables agree: exactly the offered fields have operators. */
  lemma OperatorsCoverFields(field: string)
    ensures field in FieldOptions <==> Operators(field) != []
  {
  }

  predicate IsDateField(field: string) {
    field == "worklogDate" || field == "updatedDate" || field == "createdDate"
  }

  /** The condition a new builder starts with and `addCondition` appends. */
  function InitialCondition(id: string): Condition {
    Condition(id, "worklogAuthor", "in", List([]), "AND")
  }
}
