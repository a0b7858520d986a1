/**
  The LINQ operators the controllers chain over a product sequence:
  `Where`, `Skip` and `Take`, with the semantics of LINQ to Objects
  (a count of zero or less skips nothing and takes nothing).
 */
module Query {

  /** `Where(keep)`: the elements satisfying `keep`, in their original order. */
  function Where<T(!new)>(s: seq<T>, keep: T -> bool): (r: seq<T>)
    ensures |r| <= |s|
    ensures forall x :: x in r <==> x in s && keep(x)
  {
    if s == [] then []
    else (if keep(s[0]) then [s[0]] else []) + Where(s[1..], keep)
  }

  /**
    `a` is an order-preserving subsequence of `b` (greedy matching, which
    finds an embedding whenever one exists).
   */
  predicate IsSubsequence<T(==)>(a: seq<T>, b: seq<T>)
    decreases |b|
  {
    a == [] || (b != [] && if a[0] == b[0] then IsSubsequence(a[1..], b[1..]) else IsSubsequence(a, b[1..]))
  }

  /** Every element keeps its multiplicity when kept, and disappears when not. */
  lemma {:induction false} WhereCount<T(!new)>(s: seq<T>, keep: T -> bool, x: T)
    ensures multiset(Where(s, keep))[x] == if keep(x) then multiset(s)[x] else 0
  {
    if s != [] {
      WhereCount(s[1..], keep, x);
      assert s == [s[0]] + s[1..];
    }
  }

  /** Skipping a subsequence's first element keeps it a subsequence of the rest. */
  lemma {:induction false} SubsequenceOfTail<T>(a: seq<T>, b: seq<T>)
    requires b != [] && IsSubsequence(a, b[1..])
    ensures IsSubsequence(a, b)
    decreases |b|, |a|
  {
    if a != [] && a[0] == b[0] {
      // `a` embeds in b[1..]; its tail then embeds in a proper suffix of b[1..].
      SubsequenceDropHead(a, b[1..]);
    }
  }

  /** Removing the head of a non-empty subsequence keeps it a subsequence. */
  lemma {:induction false} SubsequenceDropHead<T>(a: seq<T>, b: seq<T>)
    requires a != [] && IsSubsequence(a, b)
    ensures IsSubsequence(a[1..], b)
    decreases |b|, |a|
  {
    assert b != [];
    if a[0] == b[0] {
      if a[1..] != [] {
        SubsequenceOfTail(a[1..], b);
      }
    } else {
      SubsequenceDropHead(a, b[1..]);
      if a[1..] != [] {
        SubsequenceOfTail(a[1..], b);
      }
    }
  }

  /** `Where` never reorders: its result is a subsequence of its input. */
  lemma {:induction false} WhereIsSubsequence<T(!new)>(s: seq<T>, keep: T -> bool)
    ensures IsSubsequence(Where(s, keep), s)
  {
    if s != [] {
      WhereIsSubsequence(s[1..], keep);
      var r := Where(s[1..], keep);
      if keep(s[0]) {
        assert Where(s, keep) == [s[0]] + r;
        assert ([s[0]] + r)[1..] == r;
      } else {
        assert Where(s, keep) == r;
        if r != [] {
          SubsequenceOfTail(r, s);
        }
      }
    }
  }

  /** Two chained `Where`s filter by the conjunction of their predicates. */
  lemma {:induction false} WhereWhere<T(!new)>(s: seq<T>, first: T -> bool, second: T -> bool, both: T -> bool)
    requires forall x :: both(x) == (first(x) && second(x))
    ensures Where(Where(s, first), second) == Where(s, both)
  {
    if s != [] {
      WhereWhere(s[1..], first, second, both);
      var x, r := s[0], Where(s[1..], first);
      assert Where(s, both) == (if both(x) then [x] else []) + Where(s[1..], both);
      if first(x) {
        assert Where(s, first) == [x] + r;
        assert Where([x] + r, second) == (if second(x) then [x] else []) + Where(r, second) by {
          assert ([x] + r)[1..] == r;
        }
      } else {
        assert Where(s, first) == r;
      }
    }
  }

  /** `Where` depends only on the values its predicate takes. */
  lemma {:induction false} WhereExt<T(!new)>(s: seq<T>, f: T -> bool, g: T -> bool)
    requires forall x :: f(x) == g(x)
    ensures Where(s, f) == Where(s, g)
  {
    if s != [] {
      WhereExt(s[1..], f, g);
    }
  }

  /** A predicate that no element satisfies filters everything out. */
  lemma {:induction false} WhereNone<T(!new)>(s: seq<T>, keep: T -> bool)
    requires forall x :: x in s ==> !keep(x)
    ensures Where(s, keep) == []
  {
    if s != [] {
      WhereNone(s[1..], keep);
    }
  }

  /** A predicate that holds everywhere filters nothing out. */
  lemma {:induction false} WhereAll<T(!new)>(s: seq<T>, keep: T -> bool)
    requires forall x :: keep(x)
    ensures Where(s, keep) == s
  {
    if s != [] {
      WhereAll(s[1..], keep);
      assert s == [s[0]] + s[1..];
    }
  }

  /** `Skip(n)`: the suffix after the first `n` elements (all of it if n <= 0). */
  function Skip<T>(s: seq<T>, n: int): (r: seq<T>)
    ensures n <= 0 ==> r == s
    ensures 0 <= n <= |s| ==> |r| == |s| - n
    ensures |s| <= n ==> r == []
    ensures r == s[|s| - |r|..]
  {
    if n <= 0 then s else if n >= |s| then [] else s[n..]
  }

  /** `Take(n)`: the first `n` elements (none if n <= 0, all if n >= |s|). */
  function Take<T>(s: seq<T>, n: int): (r: seq<T>)
    ensures n <= 0 ==> r == []
    ensures 0 <= n <= |s| ==> |r| == n
    ensures |s| <= n ==> r == s
    ensures r == s[..|r|]
  {
    if n <= 0 then [] else if n >= |s| then s else s[..n]
  }
}
