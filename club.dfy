/** The reading club's database file: four tables, the `sqlite_sequence` entry
    AUTOINCREMENT keeps for each, and the set of tables created so far. Every
    repository operation is one method or function here; each call is one
    connection that either commits its change or leaves the file as it was. */
module Club {

  import opened Tables
  import opened Records
  import opened Loans

  datatype LendResult = Lent(id: int) | AlreadyLoaned
  datatype ReturnResult = Returned(count: nat) | NoActiveLoan

  const AllTables: set<Table> := {Membres, Livres, Emprunts, Commentaires}

  class Database {
    var schema: set<Table>
    var members: seq<Row<Member>>
    var books: seq<Row<Book>>
    var loans: seq<Row<Loan>>
    var comments: seq<Row<Comment>>
    // `sqlite_sequence`: the largest id each table has handed out
    var lastMemberId: int
    var lastBookId: int
    var lastLoanId: int
    var lastCommentId: int

    /** A table not yet created holds no rows; every table is numbered as
        AUTOINCREMENT numbers it. */
    ghost predicate Valid()
      reads this
    {
      (Membres !in schema ==> members == []) &&
      (Livres !in schema ==> books == []) &&
      (Emprunts !in schema ==> loans == []) &&
      (Commentaires !in schema ==> comments == []) &&
      WellNumbered(members, lastMemberId) &&
      WellNumbered(books, lastBookId) &&
      WellNumbered(loans, lastLoanId) &&
      WellNumbered(comments, lastCommentId)
    }

    /** Connecting to a file that does not exist yet: no table, no row. */
    constructor ()
      ensures Valid() && schema == {}
      ensures members == [] && books == [] && loans == [] && comments == []
      ensures lastMemberId == 0 && lastBookId == 0 && lastLoanId == 0 && lastCommentId == 0
      ensures OneOpenLoanPerBook(loans)
    {
      schema := {};
      members, books, loans, comments := [], [], [], [];
      lastMemberId, lastBookId, lastLoanId, lastCommentId := 0, 0, 0, 0;
    }

    /** `initialiser_db`: `CREATE TABLE IF NOT EXISTS` for each of the four tables.
        Tables already there keep their rows, so a second call changes nothing. */
    method Initialise()
      requires Valid()
      modifies this
      ensures Valid() && schema == old(schema) + AllTables
      ensures members == old(members) && books == old(books)
      ensures loans == old(loans) && comments == old(comments)
      ensures lastMemberId == old(lastMemberId) && lastBookId == old(lastBookId)
      ensures lastLoanId == old(lastLoanId) && lastCommentId == old(lastCommentId)
    {
      if Membres !in schema { schema := schema + {Membres}; }
      if Livres !in schema { schema := schema + {Livres}; }
      if Emprunts !in schema { schema := schema + {Emprunts}; }
      if Commentaires !in schema { schema := schema + {Commentaires}; }
    }

    /** `ajouter_membre`: insert one member with a fresh id. */
    method AddMember(name: string, email: string)
      requires Valid() && Membres in schema
      modifies this
      ensures Valid() && schema == old(schema)
      ensures lastMemberId == old(lastMemberId) + 1
      ensures members == old(members) + [Row(lastMemberId, Member(name, email))]
      ensures forall k :: 0 <= k < |old(members)| ==> old(members)[k].id < lastMemberId
      ensures FindMembersByName(name) == old(FindMembersByName(name)) + [Row(lastMemberId, Member(name, email))]
      ensures books == old(books) && loans == old(loans) && comments == old(comments)
      ensures lastBookId == old(lastBookId) && lastLoanId == old(lastLoanId) && lastCommentId == old(lastCommentId)
    {
      var row := Row(NextId(members, lastMemberId), Member(name, email));
      InsertKeepsNumbering(members, lastMemberId, row.data);
      WhereAppend(members, row, NameIs(name));
      members := members + [row];
      lastMemberId := row.id;
    }

    /** `afficher_tous_les_membres`: every member, in id order. */
    function ListMembers(): (rows: seq<Row<Member>>)
      reads this
      requires Membres in schema
      ensures rows == members
      ensures Valid() ==> IdsIncreasing(rows)
    {
      members
    }

    /** `trouver_membre_par_nom`: exactly the members whose name is `name`, in id
        order; no match gives the empty sequence. */
    function FindMembersByName(name: string): (rows: seq<Row<Member>>)
      reads this
      requires Membres in schema
      ensures forall r :: r in rows <==> r in members && r.data.name == name
      ensures Valid() ==> IdsIncreasing(rows)
    {
      Where(members, NameIs(name))
    }

    /** `ajouter_livre`: insert one book with a fresh id. */
    method AddBook(title: string, author: string, year: int)
      requires Valid() && Livres in schema
      modifies this
      ensures Valid() && schema == old(schema)
      ensures lastBookId == old(lastBookId) + 1
      ensures books == old(books) + [Row(lastBookId, Book(title, author, year))]
      ensures forall k :: 0 <= k < |old(books)| ==> old(books)[k].id < lastBookId
      ensures FindBooksByTitle(title) == old(FindBooksByTitle(title)) + [Row(lastBookId, Book(title, author, year))]
      ensures members == old(members) && loans == old(loans) && comments == old(comments)
      ensures lastMemberId == old(lastMemberId) && lastLoanId == old(lastLoanId) && lastCommentId == old(lastCommentId)
    {
      var row := Row(NextId(books, lastBookId), Book(title, author, year));
      InsertKeepsNumbering(books, lastBookId, row.data);
      WhereAppend(books, row, TitleIs(title));
      books := books + [row];
      lastBookId := row.id;
    }

    /** `afficher_tous_les_livres`: every book, in id order. */
    function ListBooks(): (rows: seq<Row<Book>>)
      reads this
      requires Livres in schema
      ensures rows == books
      ensures Valid() ==> IdsIncreasing(rows)
    {
      books
    }

    /** `trouver_livre_par_titre`: exactly the books whose title is `title`, in id
        order; no match gives the empty sequence. */
    function FindBooksByTitle(title: string): (rows: seq<Row<Book>>)
      reads this
      requires Livres in schema
      ensures forall r :: r in rows <==> r in books && r.data.title == title
      ensures Valid() ==> IdsIncreasing(rows)
    {
      Where(books, TitleIs(title))
    }

    /** `emprunter_livre`: refused, with nothing changed, while any member holds an
        open loan of the book; otherwise one open loan dated `today` is inserted. */
    method LendBook(memberId: int, bookId: int, today: Date) returns (r: LendResult)
      requires Valid() && Emprunts in schema
      modifies this
      ensures Valid() && schema == old(schema)
      ensures r.AlreadyLoaned? <==> exists k :: 0 <= k < |old(loans)| && OpenOn(old(loans)[k].data, bookId)
      ensures r.AlreadyLoaned? ==> loans == old(loans) && lastLoanId == old(lastLoanId)
      ensures r.Lent? ==> r.id == lastLoanId == old(lastLoanId) + 1
      ensures r.Lent? ==> loans == old(loans) + [Row(r.id, NewLoan(memberId, bookId, today))]
      ensures r.Lent? ==> forall k :: 0 <= k < |old(loans)| ==> old(loans)[k].id < r.id
      ensures OneOpenLoanPerBook(old(loans)) ==> OneOpenLoanPerBook(loans)
      ensures members == old(members) && books == old(books) && comments == old(comments)
      ensures lastMemberId == old(lastMemberId) && lastBookId == old(lastBookId) && lastCommentId == old(lastCommentId)
    {
      var existing := OpenLoanOf(loans, bookId);
      if existing.Some? {
        r := AlreadyLoaned;
      } else {
        var row := Row(NextId(loans, lastLoanId), NewLoan(memberId, bookId, today));
        InsertKeepsNumbering(loans, lastLoanId, row.data);
        if OneOpenLoanPerBook(loans) {
          LendKeepsOneOpenLoanPerBook(loans, row.id, memberId, bookId, today);
        }
        loans := loans + [row];
        lastLoanId := row.id;
        r := Lent(row.id);
      }
    }

    /** `retourner_livre`: the `UPDATE` stamps `today` on every open loan of this
        member and book and leaves every other row alone; with no such row it
        reports failure and the table is as before. */
    method ReturnBook(memberId: int, bookId: int, today: Date) returns (r: ReturnResult)
      requires Valid() && Emprunts in schema
      modifies this
      ensures Valid() && schema == old(schema)
      ensures r.NoActiveLoan? <==> forall k :: 0 <= k < |old(loans)| ==> !OpenFor(old(loans)[k].data, memberId, bookId)
      ensures r.Returned? ==> r.count == MatchCount(old(loans), memberId, bookId)
      ensures r.NoActiveLoan? ==> loans == old(loans)
      ensures loans == CloseMatching(old(loans), memberId, bookId, today)
      ensures OneOpenLoanPerBook(old(loans)) ==> OneOpenLoanPerBook(loans) && (r.Returned? ==> r.count == 1)
      ensures members == old(members) && books == old(books) && comments == old(comments)
      ensures lastMemberId == old(lastMemberId) && lastBookId == old(lastBookId)
      ensures lastLoanId == old(lastLoanId) && lastCommentId == old(lastCommentId)
    {
      // the UPDATE works on the connection's uncommitted copy of the table
      var pending, count := UpdateReturned(loans, memberId, bookId, today);
      if OneOpenLoanPerBook(loans) {
        ReturnKeepsOneOpenLoanPerBook(loans, memberId, bookId, today);
        OneOpenLoanPerBookSingleMatch(loans, memberId, bookId);
      }
      if count == 0 {
        // nothing matched: no commit, and closing the connection discards nothing
        NoMatchNoChange(loans, memberId, bookId, today);
        r := NoActiveLoan;
      } else {
        CloseKeepsNumbering(loans, memberId, bookId, today);
        loans := pending;
        r := Returned(count);
      }
    }

    /** `ajouter_commentaire`: insert one comment with a fresh id; the sentiment
        column is not written and stays NULL. */
    method AddComment(memberId: int, bookId: int, text: string)
      requires Valid() && Commentaires in schema
      modifies this
      ensures Valid() && schema == old(schema)
      ensures lastCommentId == old(lastCommentId) + 1
      ensures comments == old(comments) + [Row(lastCommentId, Comment(memberId, bookId, text, None))]
      ensures forall k :: 0 <= k < |old(comments)| ==> old(comments)[k].id < lastCommentId
      ensures members == old(members) && books == old(books) && loans == old(loans)
      ensures lastMemberId == old(lastMemberId) && lastBookId == old(lastBookId) && lastLoanId == old(lastLoanId)
    {
      var row := Row(NextId(comments, lastCommentId), Comment(memberId, bookId, text, None));
      InsertKeepsNumbering(comments, lastCommentId, row.data);
      comments := comments + [row];
      lastCommentId := row.id;
    }
  }

  /** The `UPDATE ... SET date_retour = ? WHERE membre_id = ? AND livre_id = ? AND
      date_retour IS NULL` of a return, row by row over a copy of the table:
      the rows it leaves and the `rowcount` it reports. */
  method UpdateReturned(t: seq<Row<Loan>>, memberId: int, bookId: int, today: Date)
    returns (updated: seq<Row<Loan>>, rowcount: nat)
    ensures updated == CloseMatching(t, memberId, bookId, today)
    ensures rowcount == MatchCount(t, memberId, bookId)
  {
    updated, rowcount := t, 0;
    var i := 0;
    while i < |t|
      invariant 0 <= i <= |t| == |updated|
      invariant forall k :: 0 <= k < i ==> updated[k] == Close(t[k], memberId, bookId, today)
      invariant forall k :: i <= k < |t| ==> updated[k] == t[k]
      invariant rowcount == MatchCount(t[..i], memberId, bookId)
    {
      ScanStep(t, memberId, bookId, i);
      if OpenFor(updated[i].data, memberId, bookId) {
        updated := updated[i := updated[i].(data := updated[i].data.(returnDate := Some(today)))];
        rowcount := rowcount + 1;
      }
      i := i + 1;
    }
    assert t[..|t|] == t;
    forall k | 0 <= k < |t|
      ensures updated[k] == CloseMatching(t, memberId, bookId, today)[k]
    {
      CloseMatchingAt(t, memberId, bookId, today, k);
    }
  }

  /** The return's `UPDATE` never touches the id column. */
  lemma {:induction false} CloseKeepsNumbering(t: seq<Row<Loan>>, memberId: int, bookId: int, today: Date)
    ensures forall k :: 0 <= k < |t| ==> CloseMatching(t, memberId, bookId, today)[k].id == t[k].id
  {
    CloseMatchingEffect(t, memberId, bookId, today);
  }
}
