/** Rows of an SQLite table whose first column is declared
    `id INTEGER PRIMARY KEY AUTOINCREMENT`, the numbering SQLite gives them,
    and the `SELECT * ... WHERE` scan over such a table. */
module Tables {

  datatype Option<+T> = None | Some(value: T)

  /** One row: the id SQLite assigned and the remaining columns. */
  datatype Row<T> = Row(id: int, data: T)

  /** Rows are kept in ascending id order, the order a plain scan returns them in. */
  ghost predicate IdsIncreasing<T>(t: seq<Row<T>>) {
    forall i, j :: 0 <= i < j < |t| ==> t[i].id < t[j].id
  }

  /** `last` is the table's entry in `sqlite_sequence`, the largest id ever handed
      out: every id in the table is at most `last`, and ids ascend. */
  ghost predicate WellNumbered<T>(t: seq<Row<T>>, last: int) {
    IdsIncreasing(t) && forall k :: 0 <= k < |t| ==> t[k].id <= last
  }

  /** The id AUTOINCREMENT gives the next inserted row: one more than the larger
      of the sequence entry and the largest id present. */
  function NextId<T>(t: seq<Row<T>>, last: int): (id: int)
    ensures id > last
    ensures forall k :: 0 <= k < |t| ==> t[k].id < id
    ensures WellNumbered(t, last) ==> id == last + 1
  {
    if t == [] then last + 1
    else
      var id := NextId(t[..|t| - 1], last);
      if t[|t| - 1].id < id then id else t[|t| - 1].id + 1
  }

  /** Appending a row numbered by NextId keeps the table well numbered, with the
      new id as the sequence entry. */
  lemma InsertKeepsNumbering<T>(t: seq<Row<T>>, last: int, x: T)
    requires WellNumbered(t, last)
    ensures WellNumbered(t + [Row(NextId(t, last), x)], NextId(t, last))
  {
  }

  /** `SELECT * FROM t WHERE p`: the rows whose columns satisfy `p`, in table order. */
  function Where<T(==,!new)>(t: seq<Row<T>>, p: T -> bool): (rows: seq<Row<T>>)
    ensures |rows| <= |t|
    ensures forall r :: r in rows <==> r in t && p(r.data)
    ensures IdsIncreasing(t) ==> IdsIncreasing(rows)
  {
    if t == [] then []
    else
      var rest := Where(t[1..], p);
      assert forall r :: r in rest ==> r in t[1..];
      if p(t[0].data) then [t[0]] + rest else rest
  }

  /** Scanning a table after an insert finds what it found before, then the new
      row if it matches. */
  lemma {:induction false} WhereAppend<T(!new)>(t: seq<Row<T>>, x: Row<T>, p: T -> bool)
    ensures Where(t + [x], p) == Where(t, p) + (if p(x.data) then [x] else [])
  {
    if t == [] {
      assert [x][1..] == [];
    } else {
      assert (t + [x])[1..] == t[1..] + [x];
      WhereAppend(t[1..], x, p);
    }
  }
}
