/**
 * The default filter each soft-deletable type gets, and the row visibility it implies when the
 * engine applies it to a query.
 */
module Filters {
  import opened Common

  /** A filter condition `{ [field]: value }`: the column equals the value (`IS NULL` for null). */
  datatype Cond = FieldEquals(field: string, value: Value)

  /** A named engine filter; a default one applies to every query that does not opt out. */
  datatype FilterDef = FilterDef(name: string, cond: Cond, enabledByDefault: bool)

  /** A stored row: column name to value. */
  type Row = map<string, Value>

  /** The filter both decorators install: `{ [field]: valueInitial ?? null }`, on by default. */
  function SoftDeleteFilter(field: string, valueInitial: Value): (f: FilterDef)
    ensures f.name == SOFT_DELETABLE_FILTER && f.enabledByDefault
    ensures f.cond.field == field && f.cond.value == Baseline(valueInitial)
  {
    FilterDef(SOFT_DELETABLE_FILTER, FieldEquals(field, Baseline(valueInitial)), true)
  }

  /** A column as the database holds it: an unset column is `NULL`. */
  function Column(row: Row, field: string): Value
  {
    if field in row then row[field] else Null
  }

  predicate Matches(row: Row, cond: Cond)
  {
    Column(row, cond.field) == cond.value
  }

  /** Whether a row passes the filter, with default filters on (`filtersOn`) or disabled. */
  predicate Visible(row: Row, f: FilterDef, filtersOn: bool)
  {
    !(filtersOn && f.enabledByDefault) || Matches(row, f.cond)
  }

  /** The row an UPDATE leaves behind: the payload's columns overwrite the stored ones. */
  function Updated(row: Row, payload: map<string, Value>): (r: Row)
    ensures forall k :: k in payload ==> k in r && r[k] == payload[k]
    ensures forall k :: k in row && k !in payload ==> k in r && r[k] == row[k]
    ensures r.Keys == row.Keys + payload.Keys
  {
    row + payload
  }

  /**
   * Under default filters a row of a soft-deletable type is visible exactly when its marker
   * equals the baseline; with filters disabled every row is visible.
   */
  lemma VisibleIffBaseline(row: Row, field: string, valueInitial: Value)
    ensures Visible(row, SoftDeleteFilter(field, valueInitial), true) <==>
            Column(row, field) == Baseline(valueInitial)
    ensures Visible(row, SoftDeleteFilter(field, valueInitial), false)
  {
  }

  /**
   * A type configured with `valueInitial = false`: `false` rows are visible, `true` rows (and
   * rows whose marker is still `NULL`) are not.
   */
  lemma FalseBaseline(row: Row, field: string)
    ensures Column(row, field) == Bool(false) ==> Visible(row, SoftDeleteFilter(field, Bool(false)), true)
    ensures Column(row, field) == Bool(true) ==> !Visible(row, SoftDeleteFilter(field, Bool(false)), true)
    ensures field !in row ==> !Visible(row, SoftDeleteFilter(field, Bool(false)), true)
  {
  }

  /** Without `valueInitial`, a row whose `deletedAt` holds a date is hidden by default. */
  lemma StampedRowHidden(row: Row, field: string, t: int)
    requires field in row && row[field] == Stamp(t)
    ensures !Visible(row, SoftDeleteFilter(field, Undefined), true)
    ensures Visible(row, SoftDeleteFilter(field, Undefined), false)
  {
  }
}
