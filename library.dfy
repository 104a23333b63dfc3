/**
 * A library: books keyed by ISBN, users keyed by id, and a ledger of ISSUE and RETURN
 * transactions. A book is issued only while it is AVAILABLE and returned only while it is
 * ISSUED; every success is recorded on the user and in the ledger. Books are found by
 * title or author ignoring case, and the books a user holds are read off the ledger.
 */
module Library {
  import opened Wrappers
  import opened JavaLang

  datatype Status = Available | Issued

  datatype TxType = Issue | Return

  class Book {
    const isbn: string
    const title: string
    const author: string
    var status: Status

    /** A new book is available. */
    constructor(isbn: string, title: string, author: string)
      ensures this.isbn == isbn && this.title == title && this.author == author
      ensures status == Available
    {
      this.isbn := isbn;
      this.title := title;
      this.author := author;
      status := Available;
    }

    /** `mark`: sets the status. */
    method Mark(s: Status)
      modifies this
      ensures status == s
    {
      status := s;
    }
  }

  class User {
    const id: string
    const name: string
    var tx: seq<Transaction>

    /** A new user has no transactions. */
    constructor(id: string, name: string)
      ensures this.id == id && this.name == name && tx == []
    {
      this.id := id;
      this.name := name;
      tx := [];
    }
  }

  /** A transaction never changes once made, so it is a value. */
  datatype Transaction = Transaction(user: User, book: Book, kind: TxType)

  // ---------------------------------------------------------------------------
  // The ledger
  // ---------------------------------------------------------------------------

  /** The books the ledger mentions. */
  function LedgerBooks(ledger: seq<Transaction>): set<Book> {
    set i | 0 <= i < |ledger| :: ledger[i].book
  }

  /** The kind of the latest transaction on `b`, if any. */
  function LastOn(ledger: seq<Transaction>, b: Book): (r: Option<TxType>)
  {
    if ledger == [] then None
    else if ledger[|ledger| - 1].book == b then Some(ledger[|ledger| - 1].kind)
    else LastOn(ledger[..|ledger| - 1], b)
  }

  /** The latest transaction on `b` sits at index `i`. */
  ghost predicate LatestAt(ledger: seq<Transaction>, b: Book, i: int) {
    0 <= i < |ledger| && ledger[i].book == b && forall k :: i < k < |ledger| ==> ledger[k].book != b
  }

  /** `LastOn` gives the kind of the latest transaction on the book, and none for a book the ledger does not mention. */
  lemma {:induction false} LastOnLatest(ledger: seq<Transaction>, b: Book, i: int)
    requires LatestAt(ledger, b, i)
    ensures LastOn(ledger, b) == Some(ledger[i].kind)
    decreases |ledger|
  {
    if i < |ledger| - 1 {
      var front := ledger[..|ledger| - 1];
      assert LatestAt(front, b, i);
      LastOnLatest(front, b, i);
    }
  }

  /** Every book the ledger mentions is ISSUED exactly when its latest transaction is an ISSUE. */
  predicate StatusMatches(ledger: seq<Transaction>)
    reads LedgerBooks(ledger)
  {
    forall i :: 0 <= i < |ledger| ==> (ledger[i].book.status == Issued <==> LastOn(ledger, ledger[i].book) == Some(Issue))
  }

  /**
   * Recording a transaction on `b` after setting its status to match keeps every mentioned
   * book's status in step with the ledger.
   */
  twostate lemma RecordKeepsMatch(new ledger: seq<Transaction>, new t: Transaction)
    requires old(allocated(ledger)) && old(allocated(t))
    requires old(StatusMatches(ledger))
    requires t.book.status == (if t.kind == Issue then Issued else Available)
    requires forall c :: c in LedgerBooks(ledger) && c != t.book ==> c.status == old(c.status)
    ensures StatusMatches(ledger + [t])
  {
    var after := ledger + [t];
    forall i | 0 <= i < |after|
      ensures after[i].book.status == Issued <==> LastOn(after, after[i].book) == Some(Issue)
    {
      if after[i].book != t.book {
        assert after[..|ledger|] == ledger;
        assert ledger[i].book in LedgerBooks(ledger);
      }
    }
  }

  // ---------------------------------------------------------------------------
  // Books issued to a user
  // ---------------------------------------------------------------------------

  /** The ISSUE records of `userId` (ignoring case), in ledger order, whose book is ISSUED now. */
  function IssuedToAsWritten(ledger: seq<Transaction>, userId: string): (r: seq<Book>)
    reads LedgerBooks(ledger)
  {
    if ledger == [] then []
    else
      var t := ledger[|ledger| - 1];
      assert forall i :: 0 <= i < |ledger| - 1 ==> ledger[..|ledger| - 1][i] == ledger[i];
      IssuedToAsWritten(ledger[..|ledger| - 1], userId)
      + (if EqualsIgnoreCase(t.user.id, userId) && t.kind == Issue && t.book.status == Issued then [t.book] else [])
  }

  /** As written, every ISSUE record of the user whose book is ISSUED now contributes its book. */
  lemma {:induction false} AsWrittenIncludes(ledger: seq<Transaction>, userId: string)
    ensures forall i :: (0 <= i < |ledger| && ledger[i].kind == Issue && EqualsIgnoreCase(ledger[i].user.id, userId)
      && ledger[i].book.status == Issued) ==> ledger[i].book in IssuedToAsWritten(ledger, userId)
    decreases |ledger|
  {
    if ledger != [] {
      var front := ledger[..|ledger| - 1];
      AsWrittenIncludes(front, userId);
      forall i | 0 <= i < |front|
        ensures ledger[i] == front[i]
      {
      }
    }
  }

  /** Record `i` is an ISSUE to `userId` (ignoring case) and the latest transaction on its book. */
  predicate HeldAt(ledger: seq<Transaction>, userId: string, i: int)
    requires 0 <= i < |ledger|
  {
    && ledger[i].kind == Issue && EqualsIgnoreCase(ledger[i].user.id, userId)
    && forall k :: i < k < |ledger| ==> ledger[k].book != ledger[i].book
  }

  /** The indices below `n` of the records that `HeldAt` selects, in ledger order. */
  function HeldIndices(ledger: seq<Transaction>, userId: string, n: int): (r: seq<int>)
    requires 0 <= n <= |ledger|
    ensures forall j :: 0 <= j < |r| ==> 0 <= r[j] < n && HeldAt(ledger, userId, r[j])
    ensures forall a, c :: 0 <= a < c < |r| ==> r[a] < r[c]
  {
    if n == 0 then []
    else HeldIndices(ledger, userId, n - 1) + (if HeldAt(ledger, userId, n - 1) then [n - 1] else [])
  }

  /** Every record below `n` that `HeldAt` selects is among the indices. */
  lemma {:induction false} HeldIndicesComplete(ledger: seq<Transaction>, userId: string, n: int)
    requires 0 <= n <= |ledger|
    ensures forall i :: 0 <= i < n && HeldAt(ledger, userId, i) ==> i in HeldIndices(ledger, userId, n)
    decreases n
  {
    if n > 0 {
      HeldIndicesComplete(ledger, userId, n - 1);
    }
  }

  /** The books issued to `userId` and not returned since: the intended result of `booksIssuedTo`. */
  function HeldBy(ledger: seq<Transaction>, userId: string): (r: seq<Book>) {
    var idx := HeldIndices(ledger, userId, |ledger|);
    seq(|idx|, j requires 0 <= j < |idx| => ledger[idx[j]].book)
  }

  /**
   * The intended `booksIssuedTo` lists each book at most once, exactly the books whose latest
   * transaction is an ISSUE to the user; while the statuses match the ledger, each of them
   * is ISSUED and is also listed as written.
   */
  lemma HeldBySpec(ledger: seq<Transaction>, userId: string)
    ensures var r := HeldBy(ledger, userId);
      forall a, c :: 0 <= a < c < |r| ==> r[a] != r[c]
    ensures var r := HeldBy(ledger, userId);
      forall j :: 0 <= j < |r| ==>
        exists i :: LatestAt(ledger, r[j], i) && ledger[i].kind == Issue && EqualsIgnoreCase(ledger[i].user.id, userId)
    ensures forall i :: (0 <= i < |ledger| && LatestAt(ledger, ledger[i].book, i) && ledger[i].kind == Issue
      && EqualsIgnoreCase(ledger[i].user.id, userId)) ==> ledger[i].book in HeldBy(ledger, userId)
    ensures var r := HeldBy(ledger, userId);
      StatusMatches(ledger) ==> forall j :: 0 <= j < |r| ==> r[j].status == Issued
    ensures var r := HeldBy(ledger, userId);
      StatusMatches(ledger) ==> forall j :: 0 <= j < |r| ==> r[j] in IssuedToAsWritten(ledger, userId)
  {
    AsWrittenIncludes(ledger, userId);
    var idx := HeldIndices(ledger, userId, |ledger|);
    var r := HeldBy(ledger, userId);
    forall a, c | 0 <= a < c < |r|
      ensures r[a] != r[c]
    {
      assert idx[a] < idx[c];
    }
    forall j | 0 <= j < |r|
      ensures LatestAt(ledger, r[j], idx[j])
      ensures StatusMatches(ledger) ==> r[j].status == Issued
      ensures StatusMatches(ledger) ==> r[j] in IssuedToAsWritten(ledger, userId)
    {
      LastOnLatest(ledger, r[j], idx[j]);
    }
    HeldIndicesComplete(ledger, userId, |ledger|);
    forall i | 0 <= i < |ledger| && LatestAt(ledger, ledger[i].book, i) && ledger[i].kind == Issue
      && EqualsIgnoreCase(ledger[i].user.id, userId)
      ensures ledger[i].book in r
    {
      assert HeldAt(ledger, userId, i);
      var k :| 0 <= k < |idx| && idx[k] == i;
      assert r[k] == ledger[i].book;
    }
  }

  /**
   * A book issued to "u1", returned, and issued to "u2" is still listed for "u1" as
   * written, although "u1" no longer holds it; the intended result lists nothing.
   */
  lemma ReissuedBookStillListed(b: Book, u1: User, u2: User)
    requires u1.id == "u1" && u2.id == "u2" && b.status == Issued
    ensures var ledger := [Transaction(u1, b, Issue), Transaction(u1, b, Return), Transaction(u2, b, Issue)];
      && StatusMatches(ledger)
      && IssuedToAsWritten(ledger, "u1") == [b]
      && HeldBy(ledger, "u1") == []
  {
    var ledger := [Transaction(u1, b, Issue), Transaction(u1, b, Return), Transaction(u2, b, Issue)];
    assert LatestAt(ledger, b, 2);
    LastOnLatest(ledger, b, 2);
    assert EqualsIgnoreCase("u1", "u1");
    assert !EqualsIgnoreCase("u2", "u1") by {
      assert ToLowerCase("u2")[1] != ToLowerCase("u1")[1];
    }
    assert ledger[..2] == ledger[..3][..2] && ledger[..2][..1] == ledger[..1] && ledger[..1][..0] == [];
    assert IssuedToAsWritten(ledger[..1], "u1") == [b];
    assert IssuedToAsWritten(ledger[..2], "u1") == [b];
    assert !HeldAt(ledger, "u1", 0) by {
      assert ledger[1].book == ledger[0].book;
    }
    assert HeldIndices(ledger, "u1", 1) == [];
    assert !HeldAt(ledger, "u1", 1);
    assert HeldIndices(ledger, "u1", 2) == [];
    assert !HeldAt(ledger, "u1", 2);
  }

  // ---------------------------------------------------------------------------
  // Search
  // ---------------------------------------------------------------------------

  /** The two search strategies. */
  datatype SearchStrategy = TitleSearch | AuthorSearch

  /** The field a strategy looks at. */
  function Field(b: Book, s: SearchStrategy): string {
    match s
    case TitleSearch => b.title
    case AuthorSearch => b.author
  }

  /** The strategy's filter: the field contains the query, both folded to lower case. */
  predicate Matches(b: Book, q: string, s: SearchStrategy) {
    Contains(ToLowerCase(Field(b, s)), ToLowerCase(q))
  }

  /** Folding to lower case twice is folding once. */
  lemma LowerTwice(s: string)
    ensures ToLowerCase(ToLowerCase(s)) == ToLowerCase(s)
  {
  }

  // ---------------------------------------------------------------------------
  // The service
  // ---------------------------------------------------------------------------

  class LibraryService {
    var books: map<string, Book>
    var users: map<string, User>
    var ledger: seq<Transaction>

    /** Each book is stored under its ISBN, each user under their id, and statuses agree with the ledger. */
    predicate Valid()
      reads this, LedgerBooks(ledger)
    {
      && (forall k :: k in books ==> books[k].isbn == k)
      && (forall k :: k in users ==> users[k].id == k)
      && StatusMatches(ledger)
    }

    /** A new service has no books, users or transactions. */
    constructor()
      ensures Valid() && books == map[] && users == map[] && ledger == []
    {
      books, users, ledger := map[], map[], [];
    }

    /** `addBook`: stores the book under its ISBN, replacing any book stored there. */
    method AddBook(b: Book)
      requires Valid()
      modifies this
      ensures Valid()
      ensures books == old(books)[b.isbn := b] && users == old(users) && ledger == old(ledger)
    {
      books := books[b.isbn := b];
    }

    /** `addUser`: stores the user under their id, replacing any user stored there. */
    method AddUser(u: User)
      requires Valid()
      modifies this
      ensures Valid()
      ensures users == old(users)[u.id := u] && books == old(books) && ledger == old(ledger)
    {
      users := users[u.id := u];
    }

    /** The book and the user an issue or a return may touch. */
    function Touched(isbn: string, userId: string): set<object>
      reads this
    {
      (if isbn in books then {books[isbn]} else {}) + (if userId in users then {users[userId]} else {})
    }

    /**
     * `issueBook`: succeeds exactly when the book and the user exist and the book is
     * AVAILABLE; then the book is ISSUED and one ISSUE record is appended to the user's
     * transactions and to the ledger. A failure changes nothing.
     */
    method IssueBook(isbn: string, userId: string) returns (ok: bool)
      requires Valid()
      modifies this, Touched(isbn, userId)
      ensures Valid()
      ensures books == old(books) && users == old(users)
      ensures ok <==> (isbn in books && userId in users && old(books[isbn].status) == Available)
      ensures ok ==> (books[isbn].status == Issued
        && ledger == old(ledger) + [Transaction(users[userId], books[isbn], Issue)]
        && users[userId].tx == old(users[userId].tx) + [Transaction(users[userId], books[isbn], Issue)])
      ensures !ok ==> ledger == old(ledger) && unchanged(Touched(isbn, userId))
    {
      if isbn !in books || userId !in users {
        return false;
      }
      var b := books[isbn];
      var u := users[userId];
      if b.status != Available {
        return false;
      }
      b.Mark(Issued);
      var t := Transaction(u, b, Issue);
      u.tx := u.tx + [t];
      RecordKeepsMatch(ledger, t);
      ledger := ledger + [t];
      ok := true;
    }

    /**
     * `returnBook`: succeeds exactly when the book and the user exist and the book is
     * ISSUED, whoever it was issued to; then the book is AVAILABLE and one RETURN record is
     * appended to the user's transactions and to the ledger. A failure changes nothing.
     */
    method ReturnBook(isbn: string, userId: string) returns (ok: bool)
      requires Valid()
      modifies this, Touched(isbn, userId)
      ensures Valid()
      ensures books == old(books) && users == old(users)
      ensures ok <==> (isbn in books && userId in users && old(books[isbn].status) == Issued)
      ensures ok ==> (books[isbn].status == Available
        && ledger == old(ledger) + [Transaction(users[userId], books[isbn], Return)]
        && users[userId].tx == old(users[userId].tx) + [Transaction(users[userId], books[isbn], Return)])
      ensures !ok ==> ledger == old(ledger) && unchanged(Touched(isbn, userId))
    {
      if isbn !in books || userId !in users {
        return false;
      }
      var b := books[isbn];
      var u := users[userId];
      if b.status != Issued {
        return false;
      }
      b.Mark(Available);
      var t := Transaction(u, b, Return);
      u.tx := u.tx + [t];
      RecordKeepsMatch(ledger, t);
      ledger := ledger + [t];
      ok := true;
    }

    /** `searchBook`: the stored books that the strategy's filter accepts. */
    function SearchBook(q: string, s: SearchStrategy): (r: set<Book>)
      reads this
    {
      set k | k in books && Matches(books[k], q, s) :: books[k]
    }

    /**
     * The search finds exactly the stored books whose field, folded to lower case, holds the
     * folded query at some index; the query's case does not matter; the empty query finds every book.
     */
    lemma SearchSpec(q: string, s: SearchStrategy)
      ensures forall k :: k in books ==> (books[k] in SearchBook(q, s) <==>
        exists i :: OccursAt(ToLowerCase(Field(books[k], s)), ToLowerCase(q), i))
      ensures SearchBook(ToLowerCase(q), s) == SearchBook(q, s)
      ensures SearchBook("", s) == books.Values
    {
      forall k | k in books
        ensures books[k] in SearchBook(q, s) <==> Matches(books[k], q, s)
      {
        if books[k] in SearchBook(q, s) {
          var k' :| k' in books && Matches(books[k'], q, s) && books[k'] == books[k];
        }
      }
      forall k | k in books
        ensures Matches(books[k], q, s) <==> exists i :: OccursAt(ToLowerCase(Field(books[k], s)), ToLowerCase(q), i)
      {
        ContainsOccurs(ToLowerCase(Field(books[k], s)), ToLowerCase(q));
      }
      LowerTwice(q);
      forall b | b in books.Values
        ensures b in SearchBook("", s)
      {
        var k :| k in books && books[k] == b;
        assert ToLowerCase("") == "";
        assert Matches(b, "", s);
      }
    }

    /** `booksIssuedTo`: the books issued to the user (ignoring case) and not returned since, in ledger order. */
    function BooksIssuedTo(userId: string): (r: seq<Book>)
      reads this, LedgerBooks(ledger)
      ensures forall a, c :: 0 <= a < c < |r| ==> r[a] != r[c]
      ensures Valid() ==> forall a :: 0 <= a < |r| ==> r[a].status == Issued
    {
      HeldBySpec(ledger, userId);
      HeldBy(ledger, userId)
    }
  }

  /** Issuing a book and returning it gives it back AVAILABLE, with two more ledger records. */
  method IssueThenReturn(lib: LibraryService, isbn: string, userId: string) returns (issued: bool, returned: bool)
    requires lib.Valid()
    modifies lib, lib.Touched(isbn, userId)
    ensures lib.Valid()
    ensures issued ==> returned && isbn in lib.books && lib.books[isbn].status == Available && |lib.ledger| == |old(lib.ledger)| + 2
    ensures !issued ==> lib.ledger == old(lib.ledger)
  {
    issued := lib.IssueBook(isbn, userId);
    if !issued {
      return false, false;
    }
    returned := lib.ReturnBook(isbn, userId);
  }
}
