/**
 * The standard column selector of the classifiers: every column of the
 * frame except an excluded range, kept in frame order. The exclusion is a
 * list of column indexes that is walked with a cursor alongside the columns.
 */
module ColSelect {
  import opened Wrappers

  datatype SelectError =
    | NegativeSize    // more excluded indexes than columns
    | IndexOutOfRange // more columns kept than the selection has room for

  // ---------------------------------------------------------------------
  // The two-cursor walk, as values
  // ---------------------------------------------------------------------

  /** Column i is skipped: the exclusion cursor p points at it. */
  predicate Skips(ex: seq<int>, p: nat, i: int)
  {
    p < |ex| && i == ex[p]
  }

  /** The exclusion cursor after the first i columns. */
  function Cursor(ex: seq<int>, i: nat): (p: nat)
  {
    if i == 0 then 0
    else
      var q := Cursor(ex, i - 1);
      if Skips(ex, q, i - 1) then q + 1 else q
  }

  /** The names kept among the first i columns. */
  function Kept(all: seq<string>, ex: seq<int>, i: nat): seq<string>
    requires i <= |all|
  {
    if i == 0 then []
    else if Skips(ex, Cursor(ex, i - 1), i - 1) then Kept(all, ex, i - 1)
    else Kept(all, ex, i - 1) + [all[i - 1]]
  }

  /** The names among the first i columns whose index is not excluded at all. */
  function Filter(all: seq<string>, ex: seq<int>, i: nat): seq<string>
    requires i <= |all|
  {
    if i == 0 then []
    else if (i - 1) in ex then Filter(all, ex, i - 1)
    else Filter(all, ex, i - 1) + [all[i - 1]]
  }

  /** How many excluded indexes are below i. */
  function CountBelow(ex: seq<int>, i: int): nat
  {
    if |ex| == 0 then 0
    else CountBelow(ex[..|ex| - 1], i) + (if ex[|ex| - 1] < i then 1 else 0)
  }

  /** The initialization succeeds: the selection has exactly room for the kept columns. */
  predicate Fits(all: seq<string>, ex: seq<int>)
  {
    |ex| <= |all| && Cursor(ex, |all|) == |ex|
  }

  /** Strictly ascending indexes of existing columns. */
  predicate AscendingColumns(ex: seq<int>, count: nat)
  {
    && (forall k :: 0 <= k < |ex| ==> 0 <= ex[k] < count)
    && (forall k, l :: 0 <= k < l < |ex| ==> ex[k] < ex[l])
  }

  /** The cursor never passes the end of the list nor the column it is at, and keeps pace with the kept names. */
  lemma {:induction false} KeptLength(all: seq<string>, ex: seq<int>, i: nat)
    requires i <= |all|
    ensures Cursor(ex, i) <= i && Cursor(ex, i) <= |ex|
    ensures |Kept(all, ex, i)| == i - Cursor(ex, i)
  {
    if i > 0 {
      KeptLength(all, ex, i - 1);
    }
  }

  /** With nothing excluded every column is kept, in order. */
  lemma {:induction false} NothingExcluded(all: seq<string>, i: nat)
    requires i <= |all|
    ensures Cursor([], i) == 0
    ensures Kept(all, [], i) == all[..i]
  {
    if i > 0 {
      NothingExcluded(all, i - 1);
      assert all[..i] == all[..i - 1] + [all[i - 1]];
    }
  }

  /** Indexes of a strictly ascending list below position p are below i, the rest are at least i. */
  ghost predicate SplitAt(ex: seq<int>, p: nat, i: int)
  {
    && p <= |ex|
    && (forall k :: 0 <= k < p ==> ex[k] < i)
    && (forall k :: p <= k < |ex| ==> ex[k] >= i)
  }

  /** On a strictly ascending list of non-negative indexes, the cursor splits the list at i. */
  lemma {:induction false} CursorSplits(ex: seq<int>, count: nat, i: nat)
    requires AscendingColumns(ex, count)
    ensures SplitAt(ex, Cursor(ex, i), i)
  {
    if i > 0 {
      CursorSplits(ex, count, i - 1);
      var q := Cursor(ex, i - 1);
      if Skips(ex, q, i - 1) {
        forall k | q + 1 <= k < |ex|
          ensures ex[k] >= i
        {
          assert ex[q] < ex[k];
        }
      } else {
        forall k | q <= k < |ex|
          ensures ex[k] >= i
        {
          if k > q {
            assert ex[q] < ex[k];
          }
        }
      }
    }
  }

  /** Where a list splits at i, i is in it exactly at the split point. */
  lemma MemberAtSplit(ex: seq<int>, p: nat, i: int, count: nat)
    requires AscendingColumns(ex, count) && SplitAt(ex, p, i)
    ensures i in ex <==> Skips(ex, p, i)
  {
    if i in ex {
      var k :| 0 <= k < |ex| && ex[k] == i;
      assert p <= k by {
        if k < p {
          assert false;
        }
      }
      assert forall l :: p < l < |ex| ==> ex[p] < ex[l];
      assert k <= p by {
        if p < k {
          assert false;
        }
      }
    }
  }

  /** Where a list splits at p, p of its entries are below i. */
  lemma {:induction false} SplitCounts(ex: seq<int>, p: nat, i: int, count: nat)
    requires AscendingColumns(ex, count) && SplitAt(ex, p, i)
    ensures CountBelow(ex, i) == p
  {
    if |ex| > 0 {
      var front := ex[..|ex| - 1];
      if p == |ex| {
        SplitCounts(front, p - 1, i, count);
      } else {
        SplitCounts(front, p, i, count);
      }
    }
  }

  /**
   * On a strictly ascending exclusion list, the cursor before column i is
   * the number of excluded indexes below i, and the names kept so far are
   * exactly the non-excluded ones in frame order.
   */
  lemma {:induction false} AscendingKeepsFilter(all: seq<string>, ex: seq<int>, i: nat)
    requires i <= |all| && AscendingColumns(ex, |all|)
    ensures Cursor(ex, i) == CountBelow(ex, i)
    ensures Kept(all, ex, i) == Filter(all, ex, i)
  {
    CursorSplits(ex, |all|, i);
    SplitCounts(ex, Cursor(ex, i), i, |all|);
    if i > 0 {
      AscendingKeepsFilter(all, ex, i - 1);
      CursorSplits(ex, |all|, i - 1);
      MemberAtSplit(ex, Cursor(ex, i - 1), i - 1, |all|);
    }
  }

  /** A strictly ascending list of existing column indexes always fits, leaving |all| - |ex| names. */
  lemma AscendingFits(all: seq<string>, ex: seq<int>)
    requires AscendingColumns(ex, |all|)
    ensures Fits(all, ex)
    ensures |Filter(all, ex, |all|)| == |all| - |ex|
  {
    CursorSplits(ex, |all|, |all|);
    KeptLength(all, ex, |all|);
    AscendingKeepsFilter(all, ex, |all|);
  }

  // ---------------------------------------------------------------------
  // The selector object
  // ---------------------------------------------------------------------

  class StdColSelector {
    var selection: array?<string>

    /** A new selector has no selection until it is initialized. */
    constructor ()
      ensures selection == null
    {
      selection := null;
    }

    /**
     * Builds the selection from the frame's column names and the parsed
     * exclusion (None when no range is excluded).
     */
    method Initialize(all: seq<string>, except: Option<seq<int>>) returns (o: Outcome<SelectError>)
      modifies this
      ensures var ex := if except.None? then [] else except.value;
              && (|ex| > |all| ==> o == Fail(NegativeSize) && selection == old(selection))
              && (|ex| <= |all| && !Fits(all, ex) ==> o == Fail(IndexOutOfRange) && selection != null && fresh(selection))
              && (Fits(all, ex) ==> o == Pass && selection != null && fresh(selection) && selection[..] == Kept(all, ex, |all|))
    {
      var ex := if except.None? then [] else except.value;
      if |ex| > |all| {
        return Fail(NegativeSize);
      }
      selection := new string[|all| - |ex|];
      var fits := Walk(all, ex, selection);
      if !fits {
        return Fail(IndexOutOfRange);
      }
      return Pass;
    }

    /**
     * The two-cursor walk: skips the column the exclusion cursor points at
     * and copies every other name into `into`, failing when it runs out of room.
     */
    static method Walk(all: seq<string>, ex: seq<int>, into: array<string>) returns (fits: bool)
      requires into.Length == |all| - |ex|
      modifies into
      ensures fits <==> Fits(all, ex)
      ensures fits ==> into[..] == Kept(all, ex, |all|)
    {
      var p := 0;
      var s := 0;
      var i := 0;
      while i < |all|
        invariant 0 <= i <= |all|
        invariant p == Cursor(ex, i) && s == i - p
        invariant s <= into.Length
        invariant into[..s] == Kept(all, ex, i)
      {
        KeptLength(all, ex, i);
        if p < |ex| && i == ex[p] {
          p := p + 1;
          i := i + 1;
          continue;
        }
        if s == into.Length {
          assert Cursor(ex, i + 1) == p;
          KeptMonotone(ex, i + 1, |all|);
          return false;
        }
        into[s] := all[i];
        assert into[..s + 1] == into[..s] + [all[i]];
        s := s + 1;
        i := i + 1;
      }
      KeptLength(all, ex, |all|);
      assert into[..] == into[..s];
      return true;
    }

    /** The selection built by the latest initialization (null before the first). */
    method NextColNames() returns (r: array?<string>)
      ensures r == selection
    {
      return selection;
    }
  }

  /**
   * On the path that overflows, once the kept names outnumber the room left,
   * the walk cannot end with every excluded index matched.
   */
  lemma {:induction false} KeptMonotone(ex: seq<int>, i: nat, n: nat)
    requires i <= n
    ensures Cursor(ex, n) <= Cursor(ex, i) + (n - i)
  {
    if i < n {
      KeptMonotone(ex, i, n - 1);
    }
  }
}
