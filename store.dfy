// The database context: one mutable sequence per table. Handlers change
// these fields in place; `Db()` is the snapshot their contracts speak of.
module Store {
  import opened Seqs
  import opened Entities
  import Schema

  class Context {
    var users: seq<User>
    var roles: seq<Role>
    var userRoles: set<UserRole>
    var authors: seq<Author>
    var publishers: seq<Publisher>
    var books: seq<Book>
    var reviews: seq<Review>
    var votes: seq<ReviewVote>
    var favorites: seq<FavoriteBook>
    var searchLogs: seq<SearchLog>
    var activityLogs: seq<ActivityLog>
    var nextId: int

    function Db(): Tables
      reads this
    {
      Tables(users, roles, userRoles, authors, publishers, books, reviews, votes, favorites,
             searchLogs, activityLogs, nextId)
    }

    /** The integrity rules the database enforces hold. */
    predicate Valid()
      reads this
    {
      Schema.Valid(Db())
    }

    /** An empty database. */
    constructor ()
      ensures Db() == Schema.EmptyTables()
      ensures Valid()
    {
      users, roles, userRoles, authors, publishers := [], [], {}, [], [];
      books, reviews, votes, favorites, searchLogs, activityLogs := [], [], [], [], [], [];
      nextId := 1;
    }

    /** SaveChanges: every table takes the contents the handler computed. */
    method Commit(t: Tables)
      modifies this
      ensures Db() == t
    {
      users, roles, userRoles, authors, publishers := t.users, t.roles, t.userRoles, t.authors, t.publishers;
      books, reviews, votes, favorites := t.books, t.reviews, t.votes, t.favorites;
      searchLogs, activityLogs, nextId := t.searchLogs, t.activityLogs, t.nextId;
    }

    /** The identity value the database assigns to the next inserted row. */
    method NewId() returns (id: int)
      modifies this
      ensures id == old(nextId)
      ensures Db() == old(Db()).(nextId := id + 1)
    {
      id := nextId;
      nextId := nextId + 1;
    }
  }
}
