/** The course catalog as it is loaded once at start-up (app.py:9-20) and
    the row count reported by the analytics endpoint (app.py:58). */
module Catalog {
  import opened Results

  const IdColumn := "id"
  const TitleColumn := "title"
  const DescriptionColumn := "description"
  const RequiredColumns: set<string> := {IdColumn, TitleColumn, DescriptionColumn}

  /** Placeholders written into missing cells (app.py:14-15). */
  const DefaultTitle := "Untitled"
  const DefaultDescription := ""

  /** One loaded course: the three columns the service reads. */
  datatype Course = Course(id: int, title: string, description: string)

  /** A row as read from the table; `None` is a missing (NaN) cell.
      The value of a column the table does not have is never read. */
  datatype RawRow = RawRow(id: int, title: Option<string>, description: Option<string>)

  /** The table as read: its column names and its rows in file order. */
  datatype RawTable = RawTable(columns: set<string>, rows: seq<RawRow>)

  /** Why loading fails: selecting a column the table lacks raises a
      `KeyError` naming it; the explicit check raises a `ValueError`. */
  datatype LoadError = KeyError(column: string) | MissingRequiredColumns

  /** Fill the missing cells of one row. */
  function FillRow(row: RawRow): (c: Course)
    ensures c.id == row.id
    ensures row.title.Some? ==> c.title == row.title.value
    ensures row.title.None? ==> c.title == DefaultTitle
    ensures row.description.Some? ==> c.description == row.description.value
    ensures row.description.None? ==> c.description == DefaultDescription
  {
    Course(row.id, row.title.GetOr(DefaultTitle), row.description.GetOr(DefaultDescription))
  }

  /** Fill the missing cells of every row, keeping the row order. */
  function FillRows(rows: seq<RawRow>): (cs: seq<Course>)
    ensures |cs| == |rows|
    ensures forall i :: 0 <= i < |rows| ==> cs[i] == FillRow(rows[i])
  {
    if rows == [] then [] else [FillRow(rows[0])] + FillRows(rows[1..])
  }

  /** Start-up loading: fill `description`, then `title`, then check that the
      required columns are present. Filling a column selects it first, so a
      table without `description` fails at the first fill and one without
      `title` at the second, before the explicit check is reached. */
  function Load(t: RawTable): (r: Result<seq<Course>, LoadError>)
    ensures r.Success? <==> RequiredColumns <= t.columns
    ensures DescriptionColumn !in t.columns ==> r == Failure(KeyError(DescriptionColumn))
    ensures DescriptionColumn in t.columns && TitleColumn !in t.columns ==> r == Failure(KeyError(TitleColumn))
    ensures r == Failure(MissingRequiredColumns) <==>
              DescriptionColumn in t.columns && TitleColumn in t.columns && IdColumn !in t.columns
    ensures r.Success? ==> |r.value| == |t.rows|
    ensures r.Success? ==> forall i :: 0 <= i < |t.rows| ==>
              && r.value[i].id == t.rows[i].id
              && r.value[i].title == (if t.rows[i].title.Some? then t.rows[i].title.value else DefaultTitle)
              && r.value[i].description == (if t.rows[i].description.Some? then t.rows[i].description.value else DefaultDescription)
  {
    if DescriptionColumn !in t.columns then Failure(KeyError(DescriptionColumn))
    else if TitleColumn !in t.columns then Failure(KeyError(TitleColumn))
    else if !(RequiredColumns <= t.columns) then Failure(MissingRequiredColumns)
    else Success(FillRows(t.rows))
  }

  /** The distinct ids among the courses. */
  function Ids(catalog: seq<Course>): set<int>
  {
    set c | c in catalog :: c.id
  }

  /** There are no more distinct ids than rows. */
  lemma {:induction false} IdsAtMostRows(catalog: seq<Course>)
    ensures |Ids(catalog)| <= |catalog|
  {
    if catalog != [] {
      IdsAtMostRows(catalog[1..]);
      assert Ids(catalog) == {catalog[0].id} + Ids(catalog[1..]);
    }
  }

  /** `total_courses` of the analytics endpoint: one per row, so rows that
      repeat an id are counted again and the total is never below the number
      of distinct ids. */
  function TotalCourses(catalog: seq<Course>): (n: nat)
    ensures n == |catalog|
    ensures |Ids(catalog)| <= n
  {
    IdsAtMostRows(catalog);
    |catalog|
  }
}
