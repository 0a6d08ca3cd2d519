/** Loan bookkeeping over the `emprunts` table, as values: the availability check
    made before lending, the `UPDATE` made on return, the policy of at most one
    open loan per book, and how lending and returning keep it. */
module Loans {

  import opened Tables
  import opened Records

  predicate IsOpen(l: Loan) {
    l.returnDate.None?
  }

  /** `livre_id = ? AND date_retour IS NULL`, the condition checked before lending. */
  predicate OpenOn(l: Loan, bookId: int) {
    l.bookId == bookId && IsOpen(l)
  }

  /** `membre_id = ? AND livre_id = ? AND date_retour IS NULL`, the rows a return updates. */
  predicate OpenFor(l: Loan, memberId: int, bookId: int) {
    l.memberId == memberId && OpenOn(l, bookId)
  }

  /** The new row a successful lend inserts: `date_retour` is left NULL. */
  function NewLoan(memberId: int, bookId: int, today: Date): (l: Loan)
    ensures OpenFor(l, memberId, bookId) && l.loanDate == today
  {
    Loan(memberId, bookId, today, None)
  }

  /** The policy lending enforces: no two open loans of the same book. */
  ghost predicate OneOpenLoanPerBook(t: seq<Row<Loan>>) {
    forall i, j :: 0 <= i < j < |t| && IsOpen(t[i].data) && IsOpen(t[j].data) ==>
      t[i].data.bookId != t[j].data.bookId
  }

  /** `SELECT * FROM emprunts WHERE livre_id = ? AND date_retour IS NULL` followed by
      `fetchone()`: the first open loan of the book, whoever holds it. */
  function OpenLoanOf(t: seq<Row<Loan>>, bookId: int): (r: Option<Row<Loan>>)
    ensures r.Some? ==> r.value in t && OpenOn(r.value.data, bookId)
    ensures r.None? <==> forall k :: 0 <= k < |t| ==> !OpenOn(t[k].data, bookId)
  {
    if t == [] then None
    else if OpenOn(t[0].data, bookId) then Some(t[0])
    else
      var r := OpenLoanOf(t[1..], bookId);
      assert forall k :: 1 <= k < |t| ==> t[k] == t[1..][k - 1];
      r
  }

  /** The `SET date_retour = ?` of a return, applied to one row. */
  function Close(row: Row<Loan>, memberId: int, bookId: int, today: Date): Row<Loan> {
    if OpenFor(row.data, memberId, bookId)
    then row.(data := row.data.(returnDate := Some(today)))
    else row
  }

  /** The table after the return's `UPDATE`, the rows taken in table order. */
  function CloseMatching(t: seq<Row<Loan>>, memberId: int, bookId: int, today: Date): (r: seq<Row<Loan>>)
    ensures |r| == |t|
  {
    if t == [] then []
    else CloseMatching(t[..|t| - 1], memberId, bookId, today) + [Close(t[|t| - 1], memberId, bookId, today)]
  }

  /** The `rowcount` of the return's `UPDATE`: how many rows it matches. */
  function MatchCount(t: seq<Row<Loan>>, memberId: int, bookId: int): (n: nat)
    ensures n <= |t|
    ensures n == 0 <==> forall k :: 0 <= k < |t| ==> !OpenFor(t[k].data, memberId, bookId)
  {
    if t == [] then 0
    else
      var n := MatchCount(t[..|t| - 1], memberId, bookId);
      assert forall k :: 0 <= k < |t| - 1 ==> t[k] == t[..|t| - 1][k];
      n + (if OpenFor(t[|t| - 1].data, memberId, bookId) then 1 else 0)
  }

  /** One more row of the `UPDATE`'s scan: the count grows by one when it matches. */
  lemma ScanStep(t: seq<Row<Loan>>, memberId: int, bookId: int, i: int)
    requires 0 <= i < |t|
    ensures MatchCount(t[..i + 1], memberId, bookId) ==
      MatchCount(t[..i], memberId, bookId) + (if OpenFor(t[i].data, memberId, bookId) then 1 else 0)
  {
    assert t[..i + 1][..i] == t[..i];
  }

  /** Row by row, the `UPDATE` stamps today's date on exactly the open loans of
      this member and book; every other row, its id and its other columns stay. */
  lemma {:induction false} CloseMatchingAt(t: seq<Row<Loan>>, memberId: int, bookId: int, today: Date, k: int)
    requires 0 <= k < |t|
    ensures CloseMatching(t, memberId, bookId, today)[k] == Close(t[k], memberId, bookId, today)
  {
    if k < |t| - 1 {
      CloseMatchingAt(t[..|t| - 1], memberId, bookId, today, k);
    }
  }

  /** Every row of the table after a return, against the same row before it. */
  lemma {:induction false} CloseMatchingEffect(t: seq<Row<Loan>>, memberId: int, bookId: int, today: Date)
    ensures forall k :: 0 <= k < |t| ==>
      var after := CloseMatching(t, memberId, bookId, today)[k];
      after.id == t[k].id &&
      after.data.memberId == t[k].data.memberId &&
      after.data.bookId == t[k].data.bookId &&
      after.data.loanDate == t[k].data.loanDate &&
      after.data.returnDate == (if OpenFor(t[k].data, memberId, bookId) then Some(today) else t[k].data.returnDate)
  {
    forall k | 0 <= k < |t|
      ensures CloseMatching(t, memberId, bookId, today)[k] == Close(t[k], memberId, bookId, today)
    {
      CloseMatchingAt(t, memberId, bookId, today, k);
    }
  }

  /** A return that matches no row leaves the table as it was. */
  lemma {:induction false} NoMatchNoChange(t: seq<Row<Loan>>, memberId: int, bookId: int, today: Date)
    requires MatchCount(t, memberId, bookId) == 0
    ensures CloseMatching(t, memberId, bookId, today) == t
  {
    forall k | 0 <= k < |t|
      ensures CloseMatching(t, memberId, bookId, today)[k] == t[k]
    {
      CloseMatchingAt(t, memberId, bookId, today, k);
    }
  }

  /** After a return, the member holds no open loan of the book. */
  lemma {:induction false} ReturnClosesAll(t: seq<Row<Loan>>, memberId: int, bookId: int, today: Date)
    ensures MatchCount(CloseMatching(t, memberId, bookId, today), memberId, bookId) == 0
  {
    forall k | 0 <= k < |t|
      ensures !OpenFor(CloseMatching(t, memberId, bookId, today)[k].data, memberId, bookId)
    {
      CloseMatchingAt(t, memberId, bookId, today, k);
    }
  }

  /** A return only closes loans, so it keeps the one-open-loan-per-book policy. */
  lemma ReturnKeepsOneOpenLoanPerBook(t: seq<Row<Loan>>, memberId: int, bookId: int, today: Date)
    requires OneOpenLoanPerBook(t)
    ensures OneOpenLoanPerBook(CloseMatching(t, memberId, bookId, today))
  {
    var after := CloseMatching(t, memberId, bookId, today);
    forall k | 0 <= k < |t|
      ensures after[k] == Close(t[k], memberId, bookId, today)
    {
      CloseMatchingAt(t, memberId, bookId, today, k);
    }
  }

  /** Under the policy, a return's `UPDATE` matches at most one row, even though its
      `WHERE` clause does not ask for a single one. */
  lemma {:induction false} OneOpenLoanPerBookSingleMatch(t: seq<Row<Loan>>, memberId: int, bookId: int)
    requires OneOpenLoanPerBook(t)
    ensures MatchCount(t, memberId, bookId) <= 1
  {
    if t != [] {
      var front := t[..|t| - 1];
      assert forall k :: 0 <= k < |front| ==> front[k] == t[k];
      OneOpenLoanPerBookSingleMatch(front, memberId, bookId);
      if OpenFor(t[|t| - 1].data, memberId, bookId) {
        assert forall k :: 0 <= k < |front| ==> !OpenFor(front[k].data, memberId, bookId);
      }
    }
  }

  /** A lend is refused while the book is out: a lend attempted after a lend of
      the same book, by any member, finds the loan just inserted. */
  lemma LentBookIsOut(t: seq<Row<Loan>>, id: int, memberId: int, bookId: int, today: Date)
    ensures OpenLoanOf(t + [Row(id, NewLoan(memberId, bookId, today))], bookId).Some?
  {
    var t' := t + [Row(id, NewLoan(memberId, bookId, today))];
    assert OpenOn(t'[|t'| - 1].data, bookId);
  }

  /** A lend inserted only when the book has no open loan keeps the policy. */
  lemma LendKeepsOneOpenLoanPerBook(t: seq<Row<Loan>>, id: int, memberId: int, bookId: int, today: Date)
    requires OneOpenLoanPerBook(t)
    requires OpenLoanOf(t, bookId).None?
    ensures OneOpenLoanPerBook(t + [Row(id, NewLoan(memberId, bookId, today))])
  {
  }

  /** Lend then return by the same member: the return matches exactly the new row,
      and afterwards the book has no open loan, so the next lend of it, by anyone,
      is accepted. */
  lemma LendThenReturnFrees(t: seq<Row<Loan>>, id: int, memberId: int, bookId: int, lent: Date, returned: Date)
    requires OpenLoanOf(t, bookId).None?
    ensures MatchCount(t + [Row(id, NewLoan(memberId, bookId, lent))], memberId, bookId) == 1
    ensures OpenLoanOf(CloseMatching(t + [Row(id, NewLoan(memberId, bookId, lent))], memberId, bookId, returned), bookId).None?
  {
    var t' := t + [Row(id, NewLoan(memberId, bookId, lent))];
    assert t'[..|t'| - 1] == t;
    assert MatchCount(t, memberId, bookId) == 0;
    var after := CloseMatching(t', memberId, bookId, returned);
    forall k | 0 <= k < |t'|
      ensures !OpenOn(after[k].data, bookId)
    {
      CloseMatchingAt(t', memberId, bookId, returned, k);
    }
  }
}
