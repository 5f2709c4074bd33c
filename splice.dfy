// What LocalStorage.removeBooks does to the fetched list: it walks the list
// with Array.prototype.forEach and splices out each visited entry whose isbn
// equals the key. forEach fixes the length before the first call and visits
// an index only while it is still present, so the entry that shifts into a
// spliced slot is never looked at.
module Splice {
  import opened Books

  /**
   * Reference definition of the list that the loop leaves: a matching head
   * is dropped and the entry behind it is kept unexamined.
   */
  function SpliceVisited(books: seq<Book>, isbn: string): (r: seq<Book>)
    ensures |r| <= |books|
    decreases |books|
  {
    if books == [] then []
    else if books[0].isbn != isbn then [books[0]] + SpliceVisited(books[1..], isbn)
    else if |books| == 1 then []
    else [books[1]] + SpliceVisited(books[2..], isbn)
  }

  /** The idealised removal: every entry whose isbn equals the key is gone. */
  function WithoutIsbn(books: seq<Book>, isbn: string): (r: seq<Book>)
    ensures |r| <= |books|
    ensures forall b :: b in r ==> b in books && b.isbn != isbn
    decreases |books|
  {
    if books == [] then []
    else (if books[0].isbn == isbn then [] else [books[0]]) + WithoutIsbn(books[1..], isbn)
  }

  /** a can be obtained from b by deleting entries. */
  predicate IsSubsequence(a: seq<Book>, b: seq<Book>)
    decreases |b|
  {
    if a == [] then true
    else if b == [] then false
    else (a[0] == b[0] && IsSubsequence(a[1..], b[1..])) || IsSubsequence(a, b[1..])
  }

  /**
   * Whether the loop splices out the entry at original index i: it matches,
   * and the entry before it was not spliced out (otherwise it has shifted
   * into an index that was already visited).
   */
  predicate SplicedOut(books: seq<Book>, isbn: string, i: nat)
    requires i < |books|
    decreases i
  {
    books[i].isbn == isbn && (i == 0 || !SplicedOut(books, isbn, i - 1))
  }

  /** The entries from original index `from` on that are not spliced out. */
  function Survivors(books: seq<Book>, isbn: string, from: nat): seq<Book>
    requires from <= |books|
    decreases |books| - from
  {
    if from == |books| then []
    else (if SplicedOut(books, isbn, from) then [] else [books[from]]) + Survivors(books, isbn, from + 1)
  }

  /**
   * The forEach loop of removeBooks over a local copy of the list: the
   * length is read once, an index is visited only while it is below the
   * current length, and a matching entry is spliced out in place.
   */
  method SpliceMatches(books: seq<Book>, isbn: string) returns (r: seq<Book>)
    ensures r == SpliceVisited(books, isbn)
  {
    r := books;
    var n := |r|;
    ghost var j: nat := 0;
    assert r[..0] + SpliceVisited(books[0..], isbn) == SpliceVisited(books, isbn) by {
      assert books[0..] == books;
    }
    for k := 0 to n
      invariant |r| <= n
      invariant Visiting(books, isbn, r, k, j)
    {
      if k < |r| {
        if r[k].isbn == isbn {
          if k + 1 < |r| {
            VisitDrop(books, isbn, r, k, j);
            r := r[..k] + r[k + 1..];
            j := j + 2;
          } else {
            VisitDropLast(books, isbn, r, k, j);
            r := r[..k];
            j := |books|;
          }
        } else {
          VisitKeep(books, isbn, r, k, j);
          j := j + 1;
        }
      } else {
        VisitPast(books, isbn, r, k, j);
      }
    }
    VisitPast(books, isbn, r, n, j);
  }

  /**
   * The loop's state before it visits index k: r[k..] is still the suffix
   * of the original list from j, and what can still happen to it is what
   * the reference definition does to that suffix. Once k is past the end,
   * r is final.
   */
  ghost predicate Visiting(books: seq<Book>, isbn: string, r: seq<Book>, k: nat, j: nat)
  {
    j <= |books| &&
    (k <= |r| ==> r[k..] == books[j..] && r[..k] + SpliceVisited(books[j..], isbn) == SpliceVisited(books, isbn)) &&
    (k > |r| ==> r == SpliceVisited(books, isbn))
  }

  lemma VisitKeep(books: seq<Book>, isbn: string, r: seq<Book>, k: nat, j: nat)
    requires Visiting(books, isbn, r, k, j) && k < |r| && r[k].isbn != isbn
    ensures j < |books| && Visiting(books, isbn, r, k + 1, j + 1)
  {
  }

  lemma VisitDrop(books: seq<Book>, isbn: string, r: seq<Book>, k: nat, j: nat)
    requires Visiting(books, isbn, r, k, j) && k + 1 < |r| && r[k].isbn == isbn
    ensures j + 2 <= |books| && Visiting(books, isbn, r[..k] + r[k + 1..], k + 1, j + 2)
  {
  }

  lemma VisitDropLast(books: seq<Book>, isbn: string, r: seq<Book>, k: nat, j: nat)
    requires Visiting(books, isbn, r, k, j) && k + 1 == |r| && r[k].isbn == isbn
    ensures Visiting(books, isbn, r[..k], k + 1, |books|)
  {
  }

  lemma VisitPast(books: seq<Book>, isbn: string, r: seq<Book>, k: nat, j: nat)
    requires Visiting(books, isbn, r, k, j) && k >= |r|
    ensures r == SpliceVisited(books, isbn) && Visiting(books, isbn, r, k + 1, j)
  {
  }

  lemma {:induction false} SpliceVisitedNoMatch(books: seq<Book>, isbn: string)
    requires forall i :: 0 <= i < |books| ==> books[i].isbn != isbn
    ensures SpliceVisited(books, isbn) == books
    decreases |books|
  {
    if books != [] {
      SpliceVisitedNoMatch(books[1..], isbn);
    }
  }

  lemma {:induction false} SpliceVisitedShortens(books: seq<Book>, isbn: string, i: nat)
    requires i < |books| && books[i].isbn == isbn
    ensures |SpliceVisited(books, isbn)| < |books|
    decreases |books|
  {
    if books[0].isbn != isbn {
      SpliceVisitedShortens(books[1..], isbn, i - 1);
    }
  }

  lemma {:induction false} WithoutIsbnCons(b: Book, rest: seq<Book>, isbn: string)
    ensures WithoutIsbn([b] + rest, isbn) == (if b.isbn == isbn then [] else [b]) + WithoutIsbn(rest, isbn)
  {
  }

  /** Every entry whose isbn differs from the key survives, in its original order. */
  lemma {:induction false} SpliceVisitedKeepsOthers(books: seq<Book>, isbn: string)
    ensures WithoutIsbn(SpliceVisited(books, isbn), isbn) == WithoutIsbn(books, isbn)
    decreases |books|
  {
    if books == [] {
    } else if books[0].isbn != isbn {
      SpliceVisitedKeepsOthers(books[1..], isbn);
      WithoutIsbnCons(books[0], SpliceVisited(books[1..], isbn), isbn);
    } else if |books| > 1 {
      SpliceVisitedKeepsOthers(books[2..], isbn);
      WithoutIsbnCons(books[1], SpliceVisited(books[2..], isbn), isbn);
      assert books[1..][0] == books[1] && books[1..][1..] == books[2..];
    }
  }

  /** The loop only deletes entries: what is left appears in the list, in order. */
  lemma {:induction false} SpliceVisitedIsSubsequence(books: seq<Book>, isbn: string)
    ensures IsSubsequence(SpliceVisited(books, isbn), books)
    decreases |books|
  {
    var r := SpliceVisited(books, isbn);
    if books == [] {
    } else if books[0].isbn != isbn {
      SpliceVisitedIsSubsequence(books[1..], isbn);
      assert r[0] == books[0] && r[1..] == SpliceVisited(books[1..], isbn);
    } else if |books| > 1 {
      SpliceVisitedIsSubsequence(books[2..], isbn);
      assert r[0] == books[1..][0] && r[1..] == SpliceVisited(books[1..][1..], isbn);
      assert IsSubsequence(r, books[1..]);
    }
  }

  /** With no two matches side by side, the loop removes every match. */
  lemma {:induction false} SpliceVisitedNoAdjacent(books: seq<Book>, isbn: string)
    requires forall i :: 0 <= i < |books| - 1 ==> books[i].isbn != isbn || books[i + 1].isbn != isbn
    ensures SpliceVisited(books, isbn) == WithoutIsbn(books, isbn)
    decreases |books|
  {
    if books == [] {
    } else if books[0].isbn != isbn {
      SpliceVisitedNoAdjacent(books[1..], isbn);
    } else if |books| > 1 {
      var tail := books[2..];
      forall i | 0 <= i < |tail| - 1
        ensures tail[i].isbn != isbn || tail[i + 1].isbn != isbn
      {
        assert tail[i] == books[i + 2] && tail[i + 1] == books[i + 3];
      }
      SpliceVisitedNoAdjacent(tail, isbn);
      assert books[1..][0] == books[1] && books[1..][1..] == tail;
    }
  }

  /** A lone match is removed and nothing else changes. */
  lemma {:induction false} SpliceVisitedLoneMatch(books: seq<Book>, isbn: string, i: nat)
    requires i < |books| && books[i].isbn == isbn
    requires forall j :: 0 <= j < |books| && j != i ==> books[j].isbn != isbn
    ensures SpliceVisited(books, isbn) == books[..i] + books[i + 1..]
    decreases |books|
  {
    if i == 0 {
      if |books| > 1 {
        SpliceVisitedNoMatch(books[2..], isbn);
        assert books[1..] == [books[1]] + books[2..];
      }
    } else {
      SpliceVisitedLoneMatch(books[1..], isbn, i - 1);
      assert books[..i] == [books[0]] + books[1..][..i - 1];
      assert books[i + 1..] == books[1..][i..];
    }
  }

  /**
   * When every entry matches, exactly the entries at odd indices survive:
   * each one had shifted into the slot of the removed entry before it.
   */
  lemma {:induction false} SpliceVisitedAllMatch(books: seq<Book>, isbn: string)
    requires forall i :: 0 <= i < |books| ==> books[i].isbn == isbn
    ensures |SpliceVisited(books, isbn)| == |books| / 2
    ensures forall i :: 0 <= i < |books| / 2 ==> SpliceVisited(books, isbn)[i] == books[2 * i + 1]
    decreases |books|
  {
    if |books| > 1 {
      var tail := books[2..];
      SpliceVisitedAllMatch(tail, isbn);
      var r := SpliceVisited(books, isbn);
      assert r == [books[1]] + SpliceVisited(tail, isbn);
      forall i | 0 < i < |books| / 2
        ensures r[i] == books[2 * i + 1]
      {
        assert r[i] == SpliceVisited(tail, isbn)[i - 1] == tail[2 * (i - 1) + 1];
      }
    }
  }

  /** Of two adjacent entries with the key, the second one stays. */
  lemma AdjacentDuplicateSurvives(first: Book, second: Book)
    requires first.isbn == second.isbn
    ensures SpliceVisited([first, second], first.isbn) == [second]
  {
  }

  lemma {:induction false} SurvivorsFrom(books: seq<Book>, isbn: string, j: nat)
    requires j <= |books|
    requires j == 0 || !SplicedOut(books, isbn, j - 1)
    ensures SpliceVisited(books[j..], isbn) == Survivors(books, isbn, j)
    decreases |books| - j
  {
    if j < |books| {
      var s := books[j..];
      assert s[0] == books[j] && s[1..] == books[j + 1..];
      if books[j].isbn != isbn {
        SurvivorsFrom(books, isbn, j + 1);
      } else if j + 1 < |books| {
        assert SplicedOut(books, isbn, j) && !SplicedOut(books, isbn, j + 1);
        assert s[1..][0] == books[j + 1] && s[1..][1..] == books[j + 2..];
        SurvivorsFrom(books, isbn, j + 2);
      } else {
        assert SplicedOut(books, isbn, j);
      }
    }
  }

  /**
   * Exact outcome of the loop: the entries left are those that are not
   * spliced out, in their original order.
   */
  lemma SpliceVisitedExact(books: seq<Book>, isbn: string)
    ensures SpliceVisited(books, isbn) == Survivors(books, isbn, 0)
  {
    SurvivorsFrom(books, isbn, 0);
    assert books[0..] == books;
  }

  /** The entry right behind a spliced-out one is never spliced out. */
  lemma SuccessorOfSplicedSurvives(books: seq<Book>, isbn: string, i: nat)
    requires i + 1 < |books| && SplicedOut(books, isbn, i)
    ensures !SplicedOut(books, isbn, i + 1)
  {
  }
}
