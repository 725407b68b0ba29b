/**
 * The filter request `Visual.filterByValue` hands to the host: a basic (set-membership)
 * filter on one column, filed under object "general", property "filter", with the merge action.
 */
module Filters {
  import opened JsBuiltins

  /** The metadata of the bound category column (`category.source`). */
  datatype ColumnSource = ColumnSource(queryName: string, displayName: string)

  /** `models.FilterType`; the slicer only ever builds basic filters. */
  datatype FilterType = Basic

  /** `powerbi.FilterAction`. */
  datatype FilterAction = Merge | Remove

  datatype Target = Target(table: string, column: string)

  /** The JSON descriptor of a basic filter. */
  datatype BasicFilter = BasicFilter(
    schema: string,
    filterType: FilterType,
    target: Target,
    operator: string,
    values: seq<string>)

  /** One call of the host's `applyJsonFilter`: the descriptor, the object and property
      it is filed under, and the action. */
  datatype FilterRequest = FilterRequest(
    filter: BasicFilter,
    objectName: string,
    propertyName: string,
    action: FilterAction)

  const BasicSchema: string := "http://powerbi.com/product/schema#basic"
  const InOperator: string := "In"
  const GeneralObject: string := "general"
  const FilterProperty: string := "filter"

  /** The table part of a query name: `queryName.substring(0, queryName.indexOf('.'))`.
      With a '.', the dot-free prefix that the first '.' ends; without one, `indexOf`
      gives -1, `substring` clamps it to 0, and the table is the empty string. */
  function TableName(queryName: string): (table: string)
    ensures '.' !in queryName ==> table == ""
    ensures '.' in queryName ==>
      |table| < |queryName| && queryName[|table|] == '.' &&
      table == queryName[..|table|] && '.' !in table
  {
    Substring(queryName, 0, FirstIndex(queryName, '.'))
  }

  /** Parsing a query name built as `<table>.<column>` gives back the table, whatever the column part holds. */
  lemma {:induction false} TableNameOfQualified(table: string, column: string)
    requires '.' !in table
    ensures TableName(table + "." + column) == table
  {
    var q := table + "." + column;
    assert q[|table|] == '.';
  }

  /** The request `filterByValue(category, value)` submits. */
  function MakeFilter(source: ColumnSource, value: string): (req: FilterRequest)
    ensures req.filter.values == [value]
    ensures req.filter.target.column == source.displayName
    ensures req.filter.target.table == TableName(source.queryName)
    ensures req.filter.schema == BasicSchema && req.filter.filterType == Basic && req.filter.operator == InOperator
    ensures req.objectName == GeneralObject && req.propertyName == FilterProperty && req.action == Merge
  {
    FilterRequest(
      BasicFilter(BasicSchema, Basic, Target(TableName(source.queryName), source.displayName), InOperator, [value]),
      GeneralObject, FilterProperty, Merge)
  }

  /** What a basic "In" filter means: a cell of the target column passes exactly when it is one of the listed values. */
  predicate Admits(f: BasicFilter, table: string, column: string, cell: string)
  {
    f.filterType == Basic && f.operator == InOperator && f.target == Target(table, column) && cell in f.values
  }

  /** The filter the slicer submits keeps exactly the rows of its own column whose cell equals the chosen value,
      and it is always a merge of the "general"/"filter" slot. */
  lemma MakeFilterAdmitsOnlyValue(source: ColumnSource, value: string, table: string, column: string, cell: string)
    ensures Admits(MakeFilter(source, value).filter, table, column, cell) <==>
      table == TableName(source.queryName) && column == source.displayName && cell == value
    ensures MakeFilter(source, value).objectName == GeneralObject
    ensures MakeFilter(source, value).propertyName == FilterProperty
    ensures MakeFilter(source, value).action == Merge
  {
  }

  /** The two query-name cases: a qualified name yields its table, a name without '.' yields "". */
  lemma TableNameExamples()
    ensures TableName("Table1.Column1") == "Table1"
    ensures TableName("Sales") == ""
  {
    assert "Table1.Column1" == "Table1" + "." + "Column1";
    TableNameOfQualified("Table1", "Column1");
    assert "Sales" == ['S', 'a', 'l', 'e', 's'];
  }
}
