/**
  The page window of the catalog listing: `Skip((productPage - 1) *
  itemsPerPage).Take(itemsPerPage)` over an already ordered sequence, the
  number of pages a list of a given length spans, and the algebra of pages
  (they tile the list, in order, without overlap).

  Two versions of the window are given. `Page` computes the skip count with
  unbounded integers and is the one the listing uses; `PageAsWritten`
  computes it in 32-bit two's-complement arithmetic, as the C# `int`
  expression in the controller does, and `PageAsWrittenWrapsAround` shows
  an out-of-range page number for which the two disagree.
 */
module Paging {
  import opened Query

  const Int32Min: int := -0x8000_0000
  const Int32Max: int := 0x7FFF_FFFF

  function Min(a: int, b: int): int {
    if a <= b then a else b
  }

  /** Unchecked C# `int` arithmetic: the 32-bit two's-complement value of `x`. */
  function Wrap32(x: int): (r: int)
    ensures Int32Min <= r <= Int32Max
    ensures (x - r) % 0x1_0000_0000 == 0
    ensures Int32Min <= x <= Int32Max ==> r == x
  {
    var m := x % 0x1_0000_0000;
    if m > Int32Max then m - 0x1_0000_0000 else m
  }

  /** Multiplying by a non-negative factor preserves order. */
  lemma MulMonotone(a: int, b: int, n: int)
    requires a <= b && 0 <= n
    ensures a * n <= b * n
  {
    assert b * n - a * n == (b - a) * n;
  }

  /**
    Where page `productPage` starts in a list of `length` items. A page
    number below 1 gives a negative skip count, which skips nothing.
   */
  function PageStart(productPage: int, itemsPerPage: int, length: nat): (i: nat)
    requires itemsPerPage > 0
    ensures i <= length
    ensures productPage >= 1 ==> i == Min((productPage - 1) * itemsPerPage, length)
    ensures productPage < 1 ==> i == 0
  {
    if productPage < 1 then 0
    else
      MulMonotone(0, productPage - 1, itemsPerPage);
      Min((productPage - 1) * itemsPerPage, length)
  }

  /** Where page `productPage` ends in a list of `length` items. */
  function PageEnd(productPage: int, itemsPerPage: int, length: nat): (j: nat)
    requires itemsPerPage > 0
    ensures PageStart(productPage, itemsPerPage, length) <= j <= length
    ensures productPage >= 1 ==> j == Min(productPage * itemsPerPage, length)
    ensures productPage < 1 ==> j == Min(itemsPerPage, length)
  {
    if productPage < 1 then Min(itemsPerPage, length)
    else
      MulMonotone(0, productPage - 1, itemsPerPage);
      MulMonotone(productPage - 1, productPage, itemsPerPage);
      Min(productPage * itemsPerPage, length)
  }

  /**
    Page `productPage` (1-based) of `s` with `itemsPerPage` items per page:
    the window of `s` between the ends of pages productPage - 1 and
    productPage, each clipped to the length of `s`. A page size that is not
    positive takes nothing.
   */
  function Page<T>(s: seq<T>, productPage: int, itemsPerPage: int): (r: seq<T>)
    ensures |r| <= itemsPerPage || r == []
    ensures itemsPerPage <= 0 ==> r == []
    ensures itemsPerPage > 0 ==>
      r == s[PageStart(productPage, itemsPerPage, |s|)..PageEnd(productPage, itemsPerPage, |s|)]
  {
    var skip := (productPage - 1) * itemsPerPage;
    assert itemsPerPage > 0 && productPage >= 1 ==> skip >= 0 && productPage * itemsPerPage == skip + itemsPerPage by {
      if itemsPerPage > 0 && productPage >= 1 {
        MulMonotone(0, productPage - 1, itemsPerPage);
      }
    }
    assert itemsPerPage > 0 && productPage < 1 ==> skip <= 0 by {
      if itemsPerPage > 0 && productPage < 1 {
        MulMonotone(productPage - 1, 0, itemsPerPage);
      }
    }
    Take(Skip(s, skip), itemsPerPage)
  }

  /** Every page number below 1 shows the first page. */
  lemma PageBeforeFirst<T>(s: seq<T>, productPage: int, itemsPerPage: int)
    requires productPage < 1
    ensures Page(s, productPage, itemsPerPage) == Page(s, 1, itemsPerPage)
  {
    if itemsPerPage > 0 {
      MulMonotone(productPage - 1, 0, itemsPerPage);
    }
  }

  /** How many pages `total` items span: ceil(total / itemsPerPage). */
  function PageCount(total: nat, itemsPerPage: int): (c: nat)
    requires itemsPerPage > 0
    ensures (c - 1) * itemsPerPage < total <= c * itemsPerPage
    ensures c == 0 <==> total == 0
  {
    var c := (total + itemsPerPage - 1) / itemsPerPage;
    var rem := (total + itemsPerPage - 1) % itemsPerPage;
    assert total + itemsPerPage - 1 == c * itemsPerPage + rem;
    assert (c - 1) * itemsPerPage == c * itemsPerPage - itemsPerPage;
    assert total > 0 ==> c >= 1 by {
      if total > 0 && c < 1 {
        MulMonotone(c, 0, itemsPerPage);
      }
    }
    c
  }

  /** The concatenation of pages 1 .. count, in page order. */
  function Pages<T>(s: seq<T>, itemsPerPage: int, count: nat): seq<T>
    requires itemsPerPage > 0
  {
    if count == 0 then [] else Pages(s, itemsPerPage, count - 1) + Page(s, count, itemsPerPage)
  }

  /** Pages 1 .. count together are exactly the first count * itemsPerPage items. */
  lemma {:induction false} PagesArePrefix<T>(s: seq<T>, itemsPerPage: int, count: nat)
    requires itemsPerPage > 0
    ensures Pages(s, itemsPerPage, count) == s[..Min(count * itemsPerPage, |s|)]
  {
    if count > 0 {
      PagesArePrefix(s, itemsPerPage, count - 1);
      MulMonotone(0, count - 1, itemsPerPage);
      MulMonotone(count - 1, count, itemsPerPage);
      var lo := Min((count - 1) * itemsPerPage, |s|);
      var hi := Min(count * itemsPerPage, |s|);
      var last := Page(s, count, itemsPerPage);
      assert last == s[lo..hi];
      var prev := Pages(s, itemsPerPage, count - 1);
      assert prev == s[..lo];
      assert Pages(s, itemsPerPage, count) == prev + last;
      assert s[..lo] + s[lo..hi] == s[..hi];
    }
  }

  /** Concatenating every page from 1 to the page count rebuilds the list exactly. */
  lemma AllPagesRebuildList<T>(s: seq<T>, itemsPerPage: int)
    requires itemsPerPage > 0
    ensures Pages(s, itemsPerPage, PageCount(|s|, itemsPerPage)) == s
  {
    PagesArePrefix(s, itemsPerPage, PageCount(|s|, itemsPerPage));
  }

  /** Every page from 1 to the page count holds something; all but the last are full. */
  lemma PageInRangeNonEmpty<T>(s: seq<T>, productPage: int, itemsPerPage: int)
    requires itemsPerPage > 0
    requires 1 <= productPage <= PageCount(|s|, itemsPerPage)
    ensures Page(s, productPage, itemsPerPage) != []
    ensures productPage < PageCount(|s|, itemsPerPage) ==> |Page(s, productPage, itemsPerPage)| == itemsPerPage
  {
    var c := PageCount(|s|, itemsPerPage);
    MulMonotone(productPage - 1, c - 1, itemsPerPage);
    assert productPage * itemsPerPage == (productPage - 1) * itemsPerPage + itemsPerPage;
    if productPage < c {
      MulMonotone(productPage, c - 1, itemsPerPage);
    }
  }

  /** Any page past the page count is empty. */
  lemma LaterPageEmpty<T>(s: seq<T>, productPage: int, itemsPerPage: int)
    requires itemsPerPage > 0
    requires productPage > PageCount(|s|, itemsPerPage)
    ensures Page(s, productPage, itemsPerPage) == []
  {
    MulMonotone(PageCount(|s|, itemsPerPage), productPage - 1, itemsPerPage);
  }

  /** Items 1 to 5, two per page: three pages [1, 2], [3, 4], [5], then nothing. */
  lemma FiveItemsTwoPerPage()
    ensures PageCount(5, 2) == 3
    ensures Page([1, 2, 3, 4, 5], 1, 2) == [1, 2]
    ensures Page([1, 2, 3, 4, 5], 2, 2) == [3, 4]
    ensures Page([1, 2, 3, 4, 5], 3, 2) == [5]
    ensures Page([1, 2, 3, 4, 5], 4, 2) == []
  {
  }

  /** No element occurs twice. */
  ghost predicate Distinct<T>(s: seq<T>) {
    forall i, j :: 0 <= i < j < |s| ==> s[i] != s[j]
  }

  /** Over a list without repetitions, non-overlapping index windows share no element. */
  lemma WindowsDisjoint<T>(s: seq<T>, lo1: int, hi1: int, lo2: int, hi2: int)
    requires 0 <= lo1 <= hi1 <= |s| && 0 <= lo2 <= hi2 <= |s|
    requires hi1 <= lo2 || hi2 <= lo1
    requires Distinct(s)
    ensures forall x :: x in s[lo1..hi1] ==> x !in s[lo2..hi2]
  {
    forall x | x in s[lo1..hi1]
      ensures x !in s[lo2..hi2]
    {
      var i :| lo1 <= i < hi1 && s[i] == x;
      forall j | lo2 <= j < hi2
        ensures s[j] != x
      {
        assert i != j;
      }
    }
  }

  /** Over a list without repetitions, two different pages share no element. */
  lemma PagesDisjoint<T>(s: seq<T>, page1: int, page2: int, itemsPerPage: int)
    requires itemsPerPage > 0 && page1 >= 1 && page2 >= 1 && page1 != page2
    requires Distinct(s)
    ensures forall x :: x in Page(s, page1, itemsPerPage) ==> x !in Page(s, page2, itemsPerPage)
  {
    var lo1, hi1 := Min((page1 - 1) * itemsPerPage, |s|), Min(page1 * itemsPerPage, |s|);
    var lo2, hi2 := Min((page2 - 1) * itemsPerPage, |s|), Min(page2 * itemsPerPage, |s|);
    MulMonotone(page1 - 1, page1, itemsPerPage);
    MulMonotone(page2 - 1, page2, itemsPerPage);
    MulMonotone(0, page1 - 1, itemsPerPage);
    MulMonotone(0, page2 - 1, itemsPerPage);
    if page1 < page2 {
      MulMonotone(page1, page2 - 1, itemsPerPage);
      assert hi1 <= lo2;
    } else {
      MulMonotone(page2, page1 - 1, itemsPerPage);
      assert hi2 <= lo1;
    }
    WindowsDisjoint(s, lo1, hi1, lo2, hi2);
  }

  /**
    The window as the controller computes it: the skip count is the C# `int`
    product (productPage - 1) * itemsPerPage, which wraps around outside
    the 32-bit range. Both arguments are C# `int`s.
   */
  function PageAsWritten<T>(s: seq<T>, productPage: int, itemsPerPage: int): (r: seq<T>)
    requires Int32Min <= productPage <= Int32Max && Int32Min <= itemsPerPage <= Int32Max
    ensures |r| <= itemsPerPage || r == []
    ensures Int32Min <= (productPage - 1) * itemsPerPage <= Int32Max ==> r == Page(s, productPage, itemsPerPage)
  {
    Take(Skip(s, Wrap32((productPage - 1) * itemsPerPage)), itemsPerPage)
  }

  /**
    Five items, four per page: there are two pages, yet page 2^30 + 1 is not
    empty as written, because 2^30 * 4 wraps to a skip count of 0 and the
    first page comes back. Five items, five per page: page -2^29 should show
    page 1, but (-2^29 - 1) * 5 wraps to the skip count 1610612731 and the
    page comes out empty.
   */
  lemma PageAsWrittenWrapsAround()
    ensures PageCount(5, 4) == 2
    ensures Page([1, 2, 3, 4, 5], 0x4000_0001, 4) == []
    ensures PageAsWritten([1, 2, 3, 4, 5], 0x4000_0001, 4) == [1, 2, 3, 4]
    ensures Page([1, 2, 3, 4, 5], -0x2000_0000, 5) == [1, 2, 3, 4, 5]
    ensures PageAsWritten([1, 2, 3, 4, 5], -0x2000_0000, 5) == []
  {
    assert Wrap32(0x4000_0000 * 4) == 0;
    LaterPageEmpty([1, 2, 3, 4, 5], 0x4000_0001, 4);
    assert Wrap32((-0x2000_0000 - 1) * 5) == 1610612731;
    PageBeforeFirst([1, 2, 3, 4, 5], -0x2000_0000, 5);
  }

  /**
    The intended window outside the page range: past the page count it is
    empty, and below page 1 it is page 1.
   */
  lemma PageOutOfRange<T>(s: seq<T>, productPage: int, itemsPerPage: int)
    requires itemsPerPage > 0
    ensures productPage > PageCount(|s|, itemsPerPage) ==> Page(s, productPage, itemsPerPage) == []
    ensures productPage < 1 ==> Page(s, productPage, itemsPerPage) == Page(s, 1, itemsPerPage)
  {
    if productPage > PageCount(|s|, itemsPerPage) {
      LaterPageEmpty(s, productPage, itemsPerPage);
    }
    if productPage < 1 {
      PageBeforeFirst(s, productPage, itemsPerPage);
    }
  }
}
