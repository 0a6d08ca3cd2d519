/** The four kinds of row the reading club stores, and the `WHERE` conditions the
    lookups use. Column names of the database are given beside each field. */
module Records {

  import opened Tables

  /** `date.today()` as the store keeps it: an opaque text value. */
  type Date = string

  /** The four tables created at start-up. */
  datatype Table = Membres | Livres | Emprunts | Commentaires

  /** A row of `membres`: `nom`, `email`. */
  datatype Member = Member(name: string, email: string)

  /** A row of `livres`: `titre`, `auteur`, `annee_publication`. */
  datatype Book = Book(title: string, author: string, year: int)

  /** A row of `emprunts`: `membre_id`, `livre_id`, `date_emprunt`, `date_retour`;
      a `None` return date is SQL NULL, the loan is still open. */
  datatype Loan = Loan(memberId: int, bookId: int, loanDate: Date, returnDate: Option<Date>)

  /** A row of `commentaires`: `membre_id`, `livre_id`, `commentaire`, `sentiment`;
      the sentiment column is REAL and may be NULL. */
  datatype Comment = Comment(memberId: int, bookId: int, text: string, sentiment: Option<real>)

  /** `WHERE nom = ?` */
  function NameIs(name: string): Member -> bool {
    (m: Member) => m.name == name
  }

  /** `WHERE titre = ?` */
  function TitleIs(title: string): Book -> bool {
    (b: Book) => b.title == title
  }
}
