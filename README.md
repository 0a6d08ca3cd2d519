# Reading club store, modelled in Dafny

The reading club program (`club_lecture.py`) keeps members, books, loans and
comments in a small SQLite file. Each operation in it is one connection: one to
four SQL statements, parameterised where they take arguments, then a commit
(or no commit) and a close.
This project models that store and its single-user loan bookkeeping.

- `tables.dfy` (module `Tables`): a table row (`Row`), the numbering that
  `INTEGER PRIMARY KEY AUTOINCREMENT` gives rows, and the `SELECT * ... WHERE`
  scan (`Where`).
- `records.dfy` (module `Records`): the four row types (`Member`, `Book`,
  `Loan`, `Comment`) and the four table names. It also holds the `WHERE nom = ?`
  and `WHERE titre = ?` conditions.
- `loans.dfy` (module `Loans`): loan bookkeeping as values. It covers the
  open-loan check made before a lend, the `UPDATE` made on a return and its
  `rowcount`, and the policy of at most one open loan per book. It proves how
  lending and returning keep that policy.
- `club.dfy` (module `Club`): the database file as a class `Database`. Its
  fields are the four tables as sequences, the `sqlite_sequence` entry of each,
  and the set of tables created so far. The inserts, the lend, the return and
  the schema set-up are methods proved against the functions above. The
  listings and lookups are functions.

A loan is open while its return date is SQL NULL (`None`). A lend inserts an
open loan only if no open loan of the book exists, whichever member holds it.
A return stamps today's date on every open loan of that member and book. It
reports failure when it matched no row, and then the table is as it was.
Today's date is a parameter of the operations that need it (`today`). It is
stored as an opaque text value.

Two facts about the code shape the model:
- `ajouter_commentaire` (club_lecture.py:185-188) never writes the `sentiment`
  column, so it stays NULL (`AddComment` states this).
- The return's `UPDATE` (club_lecture.py:166-170) has no single-row
  restriction: it updates every matching row (`CloseMatching`, `ReturnBook`).
  Under the lend policy at most one row matches
  (`OneOpenLoanPerBookSingleMatch`).

## Model

| member | source | states |
|---|---|---|
| `Tables.NextId` | Scripts/clubLecture/club_lecture.py:27 | the id AUTOINCREMENT assigns is greater than the sequence entry and than every id in the table; in a well-numbered table it is the sequence entry plus one |
| `Tables.InsertKeepsNumbering` | Scripts/clubLecture/club_lecture.py:27 | appending a row with that id keeps ids ascending and bounded by the new sequence entry |
| `Tables.Where` | Scripts/clubLecture/club_lecture.py:95 | a `WHERE` scan returns exactly the rows satisfying the condition, none other, in ascending id order when the table is; the conditions `WHERE nom = ?` and `WHERE titre = ?` are the helpers `NameIs` and `TitleIs` |
| `Tables.WhereAppend` | Scripts/clubLecture/club_lecture.py:130 | after an insert, a scan returns what it returned before, followed by the new row if it satisfies the condition |
| `Loans.NewLoan` | Scripts/clubLecture/club_lecture.py:151-154 | the row a lend inserts is an open loan of that member and book dated today |
| `Loans.OpenLoanOf` | Scripts/clubLecture/club_lecture.py:144-145 | the availability check finds an open loan of the book, from any member, exactly when one exists in the table; its condition `livre_id = ? AND date_retour IS NULL` is the helper `OpenOn` |
| `Loans.CloseMatching` | Scripts/clubLecture/club_lecture.py:166-170 | the return's `UPDATE` keeps the number of rows; it applies the helper `Close` (the `SET date_retour = ?` of one row) to each row, and `Close` changes a row exactly when it satisfies the helper `OpenFor` (the `WHERE membre_id = ? AND livre_id = ? AND date_retour IS NULL`) |
| `Loans.MatchCount` | Scripts/clubLecture/club_lecture.py:172 | the `rowcount` is at most the table size and is 0 exactly when no row is an open loan of that member and book |
| `Loans.CloseMatchingAt` | Scripts/clubLecture/club_lecture.py:166-170 | row k after the `UPDATE` is row k before it, with the return date set to today exactly when it was an open loan of that member and book |
| `Loans.CloseMatchingEffect` | Scripts/clubLecture/club_lecture.py:166-170 | the `UPDATE` keeps every row's id, member, book and loan date; it changes the return date to today on matching rows only |
| `Loans.NoMatchNoChange` | Scripts/clubLecture/club_lecture.py:172-173 | a return whose `UPDATE` matches no row leaves the table unchanged |
| `Loans.ReturnClosesAll` | Scripts/clubLecture/club_lecture.py:166-170 | after a return that member has no open loan of that book |
| `Loans.ReturnKeepsOneOpenLoanPerBook` | Scripts/clubLecture/club_lecture.py:166-170 | a return keeps the policy of at most one open loan per book |
| `Loans.OneOpenLoanPerBookSingleMatch` | Scripts/clubLecture/club_lecture.py:166-172 | under the policy, a return's `UPDATE` matches at most one row |
| `Loans.LentBookIsOut` | Scripts/clubLecture/club_lecture.py:144-155 | after a lend of a book, the availability check finds it out, so a second lend by any member is refused |
| `Loans.LendKeepsOneOpenLoanPerBook` | Scripts/clubLecture/club_lecture.py:144-155 | inserting an open loan of a book that had none keeps the policy |
| `Loans.LendThenReturnFrees` | Scripts/clubLecture/club_lecture.py:144-176 | after a successful lend, a return by the same member matches exactly one row, and afterwards the book has no open loan, so the next lend of it succeeds |
| `Club.UpdateReturned` | Scripts/clubLecture/club_lecture.py:166-172 | the row-by-row `UPDATE` leaves exactly the `CloseMatching` table and reports the `MatchCount` rowcount |
| `Club.CloseKeepsNumbering` | Scripts/clubLecture/club_lecture.py:166-170 | the `UPDATE` leaves every id in place |
| `Club.Database.constructor` | Scripts/clubLecture/club_lecture.py:22 | connecting to a missing file gives a store with no table, no row and every `sqlite_sequence` entry 0, so the first id each table assigns is 1 |
| `Club.Database.Initialise` | Scripts/clubLecture/club_lecture.py:21-67 | afterwards all four tables exist; every row and sequence entry is unchanged, so a second call changes nothing |
| `Club.Database.AddMember` | Scripts/clubLecture/club_lecture.py:70-78 | appends one member with exactly the given name and email and an id above every earlier one; the lookup by that name then also returns it; other tables are untouched |
| `Club.Database.ListMembers` | Scripts/clubLecture/club_lecture.py:82-87 | returns every row of the members table, in ascending id order |
| `Club.Database.FindMembersByName` | Scripts/clubLecture/club_lecture.py:92-97 | returns exactly the members whose name equals the argument, in ascending id order, possibly none |
| `Club.Database.AddBook` | Scripts/clubLecture/club_lecture.py:105-113 | appends one book with exactly the given title, author and year and an id above every earlier one; the lookup by that title then also returns it; other tables are untouched |
| `Club.Database.ListBooks` | Scripts/clubLecture/club_lecture.py:117-122 | returns every row of the books table, in ascending id order |
| `Club.Database.FindBooksByTitle` | Scripts/clubLecture/club_lecture.py:127-132 | returns exactly the books whose title equals the argument, in ascending id order, possibly none |
| `Club.Database.LendBook` | Scripts/clubLecture/club_lecture.py:140-158 | refused, with nothing changed, exactly when some member holds an open loan of the book; otherwise appends one open loan of the given member and book dated today with a fresh id; keeps the one-open-loan-per-book policy; other tables are untouched |
| `Club.Database.ReturnBook` | Scripts/clubLecture/club_lecture.py:161-178 | the loans table becomes the `UPDATE`'s result; failure exactly when no row matched, and then nothing changed; on success the count is the rowcount, and 1 under the policy; keeps the policy; other tables are untouched |
| `Club.Database.AddComment` | Scripts/clubLecture/club_lecture.py:181-190 | appends one comment with exactly the given member, book and text, a NULL sentiment and a fresh id; other tables are untouched |

## Left out

- The tkinter interface (`initialiser_ui`, the `*_ui` dialogs) and every message box. The outcome a message box reports is returned as `LendResult`/`ReturnResult` instead; a successful lend's result also carries the new loan's id, which the message box does not show. The inserts return nothing, as in the code.
- The presence checks the dialogs make before calling an operation (non-empty text, non-zero integers). The operations themselves accept any value, and so does the model.
- The text formatting of listings and lookups (`"\n".join(...)`). The model returns the rows.
- The import-time `pip install` and `nltk.download`, and TextBlob, which is imported but never called.
- Connections, commit and close, and the file on disk. Each operation is one atomic update of the store. A statement executed without a commit is modelled by not storing its result.
- Storage failures (file cannot be opened, table missing). They propagate as exceptions in the code. The operations instead require their table to exist (the listings and lookups as well as the inserts, the lend and the return), which the program guarantees by calling `initialiser_db` before the interface starts.
- 64-bit integer limits. SQLite's ids are 64-bit, so an insert fails once the largest id is reached. Separately, `sqlite3` raises `OverflowError` when a bound Python integer is outside 64 bits. That applies to `membre_id` and `livre_id` in `emprunter_livre`, `retourner_livre` and `ajouter_commentaire`, and to `annee_publication` in `ajouter_livre`. The dialogs place no bound on these integers. In the model, ids and these parameters are unbounded integers. `LendBook`, `ReturnBook`, `AddBook` and `AddComment` accept any `int` and change the store, where the code would raise.
- Column types and NULLs in columns other than the return date and the sentiment. The code always passes text for text columns and integers for id columns.
- Foreign keys. SQLite does not enforce them unless asked to, and the code never asks, so loans and comments may name any member or book id.
- `date.today()`: a parameter.
- Concurrency: the program is single-process and single-user, so the check-then-insert of a lend cannot be interleaved.
