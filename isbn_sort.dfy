/** LINQ `OrderBy(m => m.ISBN)` and `OrderByDescending(m => m.ISBN)`: a
    stable sort of books by their ISBN string. The sort is given here as an
    insertion sort, and is proved to be the only sequence that is ordered by
    ISBN and keeps the input order among books with the same ISBN, which is
    what LINQ promises of both operators. */
module IsbnSort {
  import opened Entities
  import opened Strings
  import Seqs

  /** `a` has to be placed strictly before `b`: its ISBN is smaller in
      ascending order, larger in descending order. */
  predicate Precedes(a: Book, b: Book, desc: bool) {
    if desc then Less(b.isbn, a.isbn) else Less(a.isbn, b.isbn)
  }

  lemma PrecedesNotOnEqualKeys(a: Book, b: Book, desc: bool)
    requires a.isbn == b.isbn
    ensures !Precedes(a, b, desc)
  {
    LessIrreflexive(a.isbn);
  }

  lemma PrecedesTransitive(a: Book, b: Book, c: Book, desc: bool)
    requires Precedes(a, b, desc) && Precedes(b, c, desc)
    ensures Precedes(a, c, desc)
  {
    if desc {
      LessTransitive(c.isbn, b.isbn, a.isbn);
    } else {
      LessTransitive(a.isbn, b.isbn, c.isbn);
    }
  }

  lemma PrecedesTotal(a: Book, b: Book, desc: bool)
    ensures a.isbn == b.isbn || Precedes(a, b, desc) || Precedes(b, a, desc)
  {
    LessTotal(a.isbn, b.isbn);
  }

  lemma PrecedesAsymmetric(a: Book, b: Book, desc: bool)
    requires Precedes(a, b, desc)
    ensures !Precedes(b, a, desc)
  {
    if desc {
      LessAsymmetric(b.isbn, a.isbn);
    } else {
      LessAsymmetric(a.isbn, b.isbn);
    }
  }

  /** "Not strictly before" is transitive: it is a total preorder. */
  lemma PrecedesNegTransitive(a: Book, b: Book, c: Book, desc: bool)
    requires !Precedes(a, b, desc) && !Precedes(b, c, desc)
    ensures !Precedes(a, c, desc)
  {
    if Precedes(a, c, desc) {
      PrecedesTotal(b, c, desc);
      if Precedes(c, b, desc) {
        PrecedesTransitive(a, c, b, desc);
      }
    }
  }

  /** No book is placed after one it should precede. */
  predicate Sorted(s: seq<Book>, desc: bool) {
    forall i, j :: 0 <= i < j < |s| ==> !Precedes(s[j], s[i], desc)
  }

  function IsbnIs(k: string): Book -> bool {
    (b: Book) => b.isbn == k
  }

  /** The books of `s` whose ISBN is `k`, in the order of `s`. */
  function WithIsbn(s: seq<Book>, k: string): seq<Book> {
    Seqs.Filter(s, IsbnIs(k))
  }

  lemma WithIsbnCons(s: seq<Book>, k: string)
    requires s != []
    ensures WithIsbn(s, k) == (if s[0].isbn == k then [s[0]] else []) + WithIsbn(s[1..], k)
  {
  }

  /** `r` lists the books of every ISBN in the same relative order as `s`. */
  ghost predicate Stable(r: seq<Book>, s: seq<Book>) {
    forall k :: WithIsbn(r, k) == WithIsbn(s, k)
  }

  /** Inserts `x` in front of the first book it does not have to follow. */
  function Insert(x: Book, s: seq<Book>, desc: bool): (r: seq<Book>)
    ensures |r| == |s| + 1
    ensures multiset(r) == multiset{x} + multiset(s)
  {
    if s == [] || !Precedes(s[0], x, desc) then [x] + s
    else
      assert s == [s[0]] + s[1..];
      [s[0]] + Insert(x, s[1..], desc)
  }

  lemma {:induction false} InsertSorted(x: Book, s: seq<Book>, desc: bool)
    requires Sorted(s, desc)
    ensures Sorted(Insert(x, s, desc), desc)
  {
    var r := Insert(x, s, desc);
    if s == [] || !Precedes(s[0], x, desc) {
      forall j | 0 < j < |r|
        ensures !Precedes(r[j], r[0], desc)
      {
        assert r[j] == s[j - 1];
        if j > 1 {
          PrecedesNegTransitive(s[j - 1], s[0], x, desc);
        }
      }
    } else {
      InsertSorted(x, s[1..], desc);
      var t := Insert(x, s[1..], desc);
      forall j | 0 < j < |r|
        ensures !Precedes(r[j], r[0], desc)
      {
        assert r[j] == t[j - 1];
        assert r[j] in multiset(t);
        if r[j] == x {
          PrecedesAsymmetric(s[0], x, desc);
        } else {
          assert r[j] in s[1..];
          var m :| 0 <= m < |s[1..]| && s[1..][m] == r[j];
          assert s[m + 1] == r[j];
        }
      }
    }
  }

  /** Inserting `x` puts it ahead of every book with the same ISBN. */
  lemma {:induction false} InsertWithIsbn(x: Book, s: seq<Book>, desc: bool, k: string)
    ensures WithIsbn(Insert(x, s, desc), k) == (if x.isbn == k then [x] else []) + WithIsbn(s, k)
  {
    if s == [] || !Precedes(s[0], x, desc) {
      InsertFront(x, s, desc, k);
    } else {
      InsertWithIsbn(x, s[1..], desc, k);
      InsertBehind(x, s, desc, k);
    }
  }

  lemma InsertFront(x: Book, s: seq<Book>, desc: bool, k: string)
    requires s == [] || !Precedes(s[0], x, desc)
    ensures WithIsbn(Insert(x, s, desc), k) == (if x.isbn == k then [x] else []) + WithIsbn(s, k)
  {
    var r := [x] + s;
    assert r[0] == x && r[1..] == s;
    WithIsbnCons(r, k);
  }

  lemma InsertBehind(x: Book, s: seq<Book>, desc: bool, k: string)
    requires s != [] && Precedes(s[0], x, desc)
    requires WithIsbn(Insert(x, s[1..], desc), k) == (if x.isbn == k then [x] else []) + WithIsbn(s[1..], k)
    ensures WithIsbn(Insert(x, s, desc), k) == (if x.isbn == k then [x] else []) + WithIsbn(s, k)
  {
    var t := Insert(x, s[1..], desc);
    var r := [s[0]] + t;
    assert Insert(x, s, desc) == r;
    assert r[0] == s[0] && r[1..] == t;
    WithIsbnCons(r, k);
    WithIsbnCons(s, k);
    LessIrreflexive(x.isbn);
    assert s[0].isbn != x.isbn;
    var hx := if x.isbn == k then [x] else [];
    var h0 := if s[0].isbn == k then [s[0]] else [];
    if x.isbn == k {
      assert h0 == [];
      assert WithIsbn(s, k) == WithIsbn(s[1..], k);
      assert WithIsbn(r, k) == hx + WithIsbn(s, k);
    } else {
      assert hx == [];
      assert WithIsbn(t, k) == WithIsbn(s[1..], k);
      assert WithIsbn(r, k) == h0 + WithIsbn(t, k);
      assert WithIsbn(r, k) == WithIsbn(s, k);
      assert hx + WithIsbn(s, k) == WithIsbn(s, k);
    }
  }

  /** The stable sort by ISBN: ascending, or descending when `desc`. */
  function OrderByIsbn(s: seq<Book>, desc: bool): (r: seq<Book>)
    ensures |r| == |s|
    ensures multiset(r) == multiset(s)
    ensures Sorted(r, desc)
    ensures Stable(r, s)
  {
    if s == [] then []
    else
      var t := OrderByIsbn(s[1..], desc);
      InsertSorted(s[0], t, desc);
      assert s == [s[0]] + s[1..];
      assert forall k :: WithIsbn(Insert(s[0], t, desc), k) == WithIsbn(s, k) by {
        forall k ensures WithIsbn(Insert(s[0], t, desc), k) == WithIsbn(s, k) {
          InsertWithIsbn(s[0], t, desc, k);
        }
      }
      Insert(s[0], t, desc)
  }

  /** A sequence in which no ISBN has any book is empty. */
  lemma WithIsbnAllEmpty(s: seq<Book>)
    ensures (forall k :: WithIsbn(s, k) == []) ==> s == []
  {
    if s != [] {
      WithIsbnCons(s, s[0].isbn);
    }
  }

  lemma WithIsbnOccurs(s: seq<Book>, k: string)
    requires WithIsbn(s, k) != []
    ensures exists i :: 0 <= i < |s| && s[i].isbn == k
  {
    Seqs.FilterEmptyIff(s, IsbnIs(k));
  }

  lemma WithIsbnHead(s: seq<Book>)
    requires s != []
    ensures WithIsbn(s, s[0].isbn) != [] && WithIsbn(s, s[0].isbn)[0] == s[0]
  {
    WithIsbnCons(s, s[0].isbn);
  }

  lemma WithIsbnTails(r1: seq<Book>, r2: seq<Book>)
    requires r1 != [] && r2 != [] && r1[0] == r2[0]
    requires forall k :: WithIsbn(r1, k) == WithIsbn(r2, k)
    ensures forall k :: WithIsbn(r1[1..], k) == WithIsbn(r2[1..], k)
  {
    forall k
      ensures WithIsbn(r1[1..], k) == WithIsbn(r2[1..], k)
    {
      WithIsbnCons(r1, k);
      WithIsbnCons(r2, k);
      var h := if r1[0].isbn == k then [r1[0]] else [];
      assert WithIsbn(r1, k) == WithIsbn(r2, k);
      assert WithIsbn(r1[1..], k) == WithIsbn(r1, k)[|h|..];
      assert WithIsbn(r2[1..], k) == WithIsbn(r2, k)[|h|..];
    }
  }

  /** In a sorted sequence no book precedes the first one. */
  lemma SortedFirst(r: seq<Book>, j: int, desc: bool)
    requires Sorted(r, desc) && 0 <= j < |r|
    ensures !Precedes(r[j], r[0], desc)
  {
    if j == 0 {
      PrecedesNotOnEqualKeys(r[0], r[0], desc);
    }
  }

  /** The first books of two sorted sequences with the same books per ISBN
      are the same book. */
  lemma SameFirst(r1: seq<Book>, r2: seq<Book>, desc: bool)
    requires r1 != [] && r2 != []
    requires Sorted(r1, desc) && Sorted(r2, desc)
    requires forall k :: WithIsbn(r1, k) == WithIsbn(r2, k)
    ensures r1[0] == r2[0]
  {
    var a, b := r1[0], r2[0];
    WithIsbnHead(r1);
    WithIsbnHead(r2);
    assert WithIsbn(r2, a.isbn) == WithIsbn(r1, a.isbn);
    WithIsbnOccurs(r2, a.isbn);
    var j :| 0 <= j < |r2| && r2[j].isbn == a.isbn;
    SortedFirst(r2, j, desc);
    assert WithIsbn(r1, b.isbn) == WithIsbn(r2, b.isbn);
    WithIsbnOccurs(r1, b.isbn);
    var i :| 0 <= i < |r1| && r1[i].isbn == b.isbn;
    SortedFirst(r1, i, desc);
    PrecedesTotal(a, b, desc);
    assert a.isbn == b.isbn;
  }

  /** Being ordered by ISBN and keeping the input order within each ISBN
      determines the sequence: two such sequences with the same books per
      ISBN are equal. */
  lemma {:induction false} SortedStableUnique(r1: seq<Book>, r2: seq<Book>, desc: bool)
    requires Sorted(r1, desc) && Sorted(r2, desc)
    requires forall k :: WithIsbn(r1, k) == WithIsbn(r2, k)
    ensures r1 == r2
    decreases |r1|
  {
    if r1 == [] {
      WithIsbnAllEmpty(r2);
    } else if r2 == [] {
      WithIsbnAllEmpty(r1);
    } else {
      SameFirst(r1, r2, desc);
      WithIsbnTails(r1, r2);
      SortedStableUnique(r1[1..], r2[1..], desc);
      assert r1 == [r1[0]] + r1[1..];
      assert r2 == [r2[0]] + r2[1..];
    }
  }

  /** `OrderByIsbn` is the one stable sort of `s` by ISBN. */
  lemma OrderByIsbnUnique(s: seq<Book>, r: seq<Book>, desc: bool)
    requires Sorted(r, desc) && Stable(r, s)
    ensures r == OrderByIsbn(s, desc)
  {
    SortedStableUnique(r, OrderByIsbn(s, desc), desc);
  }

  predicate DistinctIsbns(s: seq<Book>) {
    forall i, j :: 0 <= i < j < |s| ==> s[i].isbn != s[j].isbn
  }

  /** When no two books share an ISBN, the descending order is the ascending
      order reversed. */
  lemma DescendingIsReversedAscending(s: seq<Book>)
    requires DistinctIsbns(s)
    ensures OrderByIsbn(s, true) == Seqs.Reverse(OrderByIsbn(s, false))
  {
    var a := OrderByIsbn(s, false);
    var rev := Seqs.Reverse(a);
    forall i, j | 0 <= i < j < |rev|
      ensures !Precedes(rev[j], rev[i], true)
    {
      assert rev[i] == a[|a| - 1 - i] && rev[j] == a[|a| - 1 - j];
    }
    forall k
      ensures WithIsbn(rev, k) == WithIsbn(s, k)
    {
      Seqs.FilterReverse(a, IsbnIs(k));
      Seqs.FilterTwoIff(s, IsbnIs(k));
      Seqs.ReverseShort(WithIsbn(s, k));
    }
    OrderByIsbnUnique(s, rev, true);
  }
}
