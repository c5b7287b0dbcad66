/**
 * The id lists of the actor and movie views.
 *
 * The database returns an id column built by `collect(...)` in an order of its
 * own choosing; the handler then copies every non-null entry of that column
 * into a JSON array. Here the column is a sequence of optional ids listing a
 * set once each, in an order the model leaves open, and the copy is a loop.
 */
module Records {
  import opened Wrappers

  /** No id occurs twice. */
  ghost predicate Distinct<T>(xs: seq<T>) {
    forall i, j :: 0 <= i < j < |xs| ==> xs[i] != xs[j]
  }

  /** The ids of a column with its null entries dropped, in column order. */
  function Present(column: seq<Option<string>>): (ids: seq<string>)
    ensures |ids| <= |column|
    ensures forall x :: x in ids <==> Some(x) in column
    ensures Distinct(column) ==> Distinct(ids)
    ensures None !in column ==> |ids| == |column|
  {
    if column == [] then []
    else
      var init := column[..|column| - 1];
      var last := column[|column| - 1];
      assert column == init + [last];
      Present(init) + (if last.Some? then [last.value] else [])
  }

  /**
   * A column listing every id of `ids` exactly once, as `collect(...)` returns it.
   * Which order comes back is the database's choice; any order is accepted here.
   */
  method Collect(ids: set<string>) returns (column: seq<Option<string>>)
    ensures forall x :: Some(x) in column <==> x in ids
    ensures None !in column
    ensures Distinct(column)
    ensures |column| == |ids|
  {
    column := [];
    var rest := ids;
    while rest != {}
      invariant rest <= ids
      invariant forall x :: Some(x) in column <==> x in ids && x !in rest
      invariant None !in column
      invariant Distinct(column)
      invariant |column| + |rest| == |ids|
      decreases rest
    {
      var x :| x in rest;
      column := column + [Some(x)];
      rest := rest - {x};
    }
  }

  /** Copies the non-null ids of a column, in order, into a fresh list. */
  method NonNullIds(column: seq<Option<string>>) returns (ids: seq<string>)
    ensures ids == Present(column)
  {
    ids := [];
    for i := 0 to |column|
      invariant ids == Present(column[..i])
    {
      assert column[..i + 1][..i] == column[..i];
      if column[i].Some? {
        ids := ids + [column[i].value];
      }
    }
    assert column[..|column|] == column;
  }
}
