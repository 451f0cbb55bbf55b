/**
  The insert/remove edit distance between two sequences of lines, the move
  the dynamic-programming table records for every pair of prefixes, and the
  patch that walking those moves back from the last cell produces.

  These functions are the specification of the imperative code in module
  Piff: the tables it fills equal Dist and Choice cell by cell, and the patch
  its backtrace returns equals Trace.
*/
module EditDistance {

  /** The three moves an action-table cell can hold. */
  const IGNORE: char := 'I'
  const ADD: char := 'A'
  const REMOVE: char := 'R'

  /** One patch entry: the move, the line's index (in the second sequence
      for ADD, in the first for REMOVE) and the line itself. */
  datatype Entry<T> = Entry(action: char, index: nat, line: T)

  function Min(x: int, y: int): (m: int)
  {
    if x <= y then x else y
  }

  /** Number of line removals and insertions that turn the first i lines of
      a into the first j lines of b, by the table's recurrence. */
  function Dist<T(==)>(a: seq<T>, b: seq<T>, i: nat, j: nat): (d: nat)
    requires i <= |a| && j <= |b|
    decreases i + j
  {
    if i == 0 then j
    else if j == 0 then i
    else if a[i - 1] == b[j - 1] then Dist(a, b, i - 1, j - 1)
    else 1 + Min(Dist(a, b, i - 1, j), Dist(a, b, i, j - 1))
  }

  /** The distance of the prefixes lies between the difference and the sum
      of their lengths. */
  lemma {:induction false} DistBounds<T>(a: seq<T>, b: seq<T>, i: nat, j: nat)
    requires i <= |a| && j <= |b|
    ensures i <= j + Dist(a, b, i, j) && j <= i + Dist(a, b, i, j)
    ensures Dist(a, b, i, j) <= i + j
    decreases i + j
  {
    if i > 0 && j > 0 {
      if a[i - 1] == b[j - 1] {
        DistBounds(a, b, i - 1, j - 1);
      } else {
        DistBounds(a, b, i - 1, j);
        DistBounds(a, b, i, j - 1);
      }
    }
  }

  /** The move the action table records for cell (i, j): the first row adds,
      the first column removes, equal lines are ignored, and otherwise the
      cheaper neighbour wins, a tie going to REMOVE. */
  function Choice<T(==)>(a: seq<T>, b: seq<T>, i: nat, j: nat): (c: char)
    requires i <= |a| && j <= |b|
    ensures c == IGNORE || c == ADD || c == REMOVE
    ensures c == ADD ==> 0 < j
    ensures c == REMOVE ==> 0 < i
    ensures c == IGNORE && 0 < i + j ==> 0 < i && 0 < j && a[i - 1] == b[j - 1]
  {
    if i == 0 && j == 0 then IGNORE
    else if i == 0 then ADD
    else if j == 0 then REMOVE
    else if a[i - 1] == b[j - 1] then IGNORE
    else if Dist(a, b, i - 1, j) > Dist(a, b, i, j - 1) then ADD
    else REMOVE
  }

  /** Each recorded move is a cheapest step: ADD costs one more than the
      cell to the left, REMOVE one more than the cell above, and IGNORE costs
      what the diagonal cell costs. */
  lemma ChoiceIsCheapest<T>(a: seq<T>, b: seq<T>, i: nat, j: nat)
    requires i <= |a| && j <= |b| && 0 < i + j
    ensures Choice(a, b, i, j) == ADD ==> Dist(a, b, i, j) == Dist(a, b, i, j - 1) + 1
    ensures Choice(a, b, i, j) == REMOVE ==> Dist(a, b, i, j) == Dist(a, b, i - 1, j) + 1
    ensures Choice(a, b, i, j) == IGNORE ==> Dist(a, b, i, j) == Dist(a, b, i - 1, j - 1)
  {
  }

  /** The patch obtained by following the recorded moves from (i, j) back to
      (0, 0), listed from the start of the sequences to their end. */
  function Trace<T(==)>(a: seq<T>, b: seq<T>, i: nat, j: nat): (p: seq<Entry<T>>)
    requires i <= |a| && j <= |b|
    decreases i + j
  {
    if i == 0 && j == 0 then []
    else
      var c := Choice(a, b, i, j);
      if c == ADD then Trace(a, b, i, j - 1) + [Entry(ADD, j - 1, b[j - 1])]
      else if c == REMOVE then Trace(a, b, i - 1, j) + [Entry(REMOVE, i - 1, a[i - 1])]
      else Trace(a, b, i - 1, j - 1)
  }

  /** The patch has exactly as many entries as the distance in cell (i, j). */
  lemma {:induction false} TraceLength<T>(a: seq<T>, b: seq<T>, i: nat, j: nat)
    requires i <= |a| && j <= |b|
    ensures |Trace(a, b, i, j)| == Dist(a, b, i, j)
    decreases i + j
  {
    if i + j > 0 {
      ChoiceIsCheapest(a, b, i, j);
      var c := Choice(a, b, i, j);
      if c == ADD {
        TraceLength(a, b, i, j - 1);
      } else if c == REMOVE {
        TraceLength(a, b, i - 1, j);
      } else {
        TraceLength(a, b, i - 1, j - 1);
      }
    }
  }

  /** An entry that adds line k < j of b or removes line k < i of a, carrying
      that line. */
  predicate ValidEntry<T(==)>(a: seq<T>, b: seq<T>, i: nat, j: nat, e: Entry<T>)
  {
    || (e.action == ADD && e.index < j && e.index < |b| && e.line == b[e.index])
    || (e.action == REMOVE && e.index < i && e.index < |a| && e.line == a[e.index])
  }

  /** Entries of the same kind appear in strictly increasing index order. */
  predicate Ordered<T>(p: seq<Entry<T>>)
  {
    forall k, l :: 0 <= k < l < |p| && p[k].action == p[l].action ==> p[k].index < p[l].index
  }

  /** The indices carried by the entries of p whose move is tag. */
  function Indices<T>(p: seq<Entry<T>>, tag: char): (s: set<nat>)
  {
    if p == [] then {}
    else
      var last := p[|p| - 1];
      Indices(p[..|p| - 1], tag) + (if last.action == tag then {last.index} else {})
  }

  /** The first n lines of s, without those whose index is in drop. */
  function Kept<T(==)>(s: seq<T>, drop: set<nat>, n: nat): (r: seq<T>)
    requires n <= |s|
  {
    if n == 0 then []
    else Kept(s, drop, n - 1) + (if n - 1 in drop then [] else [s[n - 1]])
  }

  /** Removing the lines of a indexed by removed and the lines of b indexed by
      added leaves the same sequence: a way of turning a into b with
      |removed| + |added| single-line edits. */
  predicate Aligns<T(==)>(a: seq<T>, b: seq<T>, removed: set<nat>, added: set<nat>)
  {
    && (forall k :: k in removed ==> k < |a|)
    && (forall k :: k in added ==> k < |b|)
    && Kept(a, removed, |a|) == Kept(b, added, |b|)
  }

  /** Every entry of the patch adds a line of b or removes a line of a,
      carrying that line and a valid index; nothing is ever IGNORE. */
  lemma {:induction false} TraceEntries<T>(a: seq<T>, b: seq<T>, i: nat, j: nat)
    requires i <= |a| && j <= |b|
    ensures forall e :: e in Trace(a, b, i, j) ==> ValidEntry(a, b, i, j, e)
    decreases i + j
  {
    if i == 0 && j == 0 {
    } else {
      var c := Choice(a, b, i, j);
      if c == ADD {
        TraceEntries(a, b, i, j - 1);
      } else if c == REMOVE {
        TraceEntries(a, b, i - 1, j);
      } else {
        TraceEntries(a, b, i - 1, j - 1);
      }
    }
  }

  lemma OrderedSnoc<T>(q: seq<Entry<T>>, e: Entry<T>)
    requires Ordered(q)
    requires forall x :: x in q && x.action == e.action ==> x.index < e.index
    ensures Ordered(q + [e])
  {
    forall k | 0 <= k < |q| && q[k].action == e.action
      ensures q[k].index < e.index
    {
      assert q[k] in q;
    }
  }

  /** The ADD indices of the patch increase strictly, and so do its REMOVE
      indices. */
  lemma {:induction false} TraceOrdered<T>(a: seq<T>, b: seq<T>, i: nat, j: nat)
    requires i <= |a| && j <= |b|
    ensures Ordered(Trace(a, b, i, j))
    decreases i + j, 1
  {
    if i == 0 && j == 0 {
    } else if Choice(a, b, i, j) == ADD {
      TraceOrderedAdd(a, b, i, j);
    } else if Choice(a, b, i, j) == REMOVE {
      TraceOrderedRemove(a, b, i, j);
    } else {
      TraceOrdered(a, b, i - 1, j - 1);
    }
  }

  lemma {:induction false} TraceOrderedAdd<T>(a: seq<T>, b: seq<T>, i: nat, j: nat)
    requires i <= |a| && j <= |b| && 0 < i + j && Choice(a, b, i, j) == ADD
    ensures Ordered(Trace(a, b, i, j))
    decreases i + j, 0
  {
    TraceOrdered(a, b, i, j - 1);
    TraceEntries(a, b, i, j - 1);
    OrderedSnoc(Trace(a, b, i, j - 1), Entry(ADD, j - 1, b[j - 1]));
  }

  lemma {:induction false} TraceOrderedRemove<T>(a: seq<T>, b: seq<T>, i: nat, j: nat)
    requires i <= |a| && j <= |b| && 0 < i + j && Choice(a, b, i, j) == REMOVE
    ensures Ordered(Trace(a, b, i, j))
    decreases i + j, 0
  {
    TraceOrdered(a, b, i - 1, j);
    TraceEntries(a, b, i - 1, j);
    OrderedSnoc(Trace(a, b, i - 1, j), Entry(REMOVE, i - 1, a[i - 1]));
  }

  /** Kept only looks at the indices below n. */
  lemma {:induction false} KeptBelow<T>(s: seq<T>, d1: set<nat>, d2: set<nat>, n: nat)
    requires n <= |s|
    requires forall k :: k < n ==> (k in d1 <==> k in d2)
    ensures Kept(s, d1, n) == Kept(s, d2, n)
  {
    if n > 0 {
      KeptBelow(s, d1, d2, n - 1);
    }
  }

  /** Dropping the last line of the prefix is the same as not looking at it. */
  lemma KeptDropLast<T>(s: seq<T>, drop: set<nat>, n: nat)
    requires 0 < n <= |s| && n - 1 in drop
    ensures Kept(s, drop, n) == Kept(s, drop - {n - 1}, n - 1)
  {
    KeptBelow(s, drop, drop - {n - 1}, n - 1);
  }

  lemma SnocInjective<T>(x: seq<T>, u: T, y: seq<T>, v: T)
    requires x + [u] == y + [v]
    ensures x == y && u == v
  {
    assert x == (x + [u])[..|x|];
    assert y == (y + [v])[..|y|];
  }

  lemma IndicesSnoc<T>(q: seq<Entry<T>>, e: Entry<T>, tag: char)
    ensures Indices(q + [e], tag) == Indices(q, tag) + (if e.action == tag then {e.index} else {})
  {
    assert (q + [e])[..|q|] == q;
  }

  /** p, read as a diff of a[..i] and b[..j]: its REMOVE indices lie below i,
      its ADD indices below j, dropping those lines from both prefixes leaves
      the same sequence, and no index is named twice. */
  predicate AlignedAt<T(==)>(a: seq<T>, b: seq<T>, i: nat, j: nat, p: seq<Entry<T>>)
    requires i <= |a| && j <= |b|
  {
    && (forall k :: k in Indices(p, REMOVE) ==> k < i)
    && (forall k :: k in Indices(p, ADD) ==> k < j)
    && Kept(a, Indices(p, REMOVE), i) == Kept(b, Indices(p, ADD), j)
    && |Indices(p, REMOVE)| + |Indices(p, ADD)| == |p|
  }

  lemma AlignedAdd<T>(a: seq<T>, b: seq<T>, i: nat, j: nat, q: seq<Entry<T>>)
    requires i <= |a| && 0 < j <= |b|
    requires AlignedAt(a, b, i, j - 1, q)
    ensures AlignedAt(a, b, i, j, q + [Entry(ADD, j - 1, b[j - 1])])
  {
    var e := Entry(ADD, j - 1, b[j - 1]);
    var p := q + [e];
    IndicesSnoc(q, e, ADD);
    IndicesSnoc(q, e, REMOVE);
    var removed, addedBefore, added := Indices(q, REMOVE), Indices(q, ADD), Indices(p, ADD);
    assert Indices(p, REMOVE) == removed;
    assert added == addedBefore + {j - 1} && j - 1 !in addedBefore;
    KeptDropLast(b, added, j);
    assert added - {j - 1} == addedBefore;
    assert Kept(b, added, j) == Kept(b, addedBefore, j - 1);
  }

  lemma AlignedRemove<T>(a: seq<T>, b: seq<T>, i: nat, j: nat, q: seq<Entry<T>>)
    requires 0 < i <= |a| && j <= |b|
    requires AlignedAt(a, b, i - 1, j, q)
    ensures AlignedAt(a, b, i, j, q + [Entry(REMOVE, i - 1, a[i - 1])])
  {
    var e := Entry(REMOVE, i - 1, a[i - 1]);
    var p := q + [e];
    IndicesSnoc(q, e, ADD);
    IndicesSnoc(q, e, REMOVE);
    var added, removedBefore, removed := Indices(q, ADD), Indices(q, REMOVE), Indices(p, REMOVE);
    assert Indices(p, ADD) == added;
    assert removed == removedBefore + {i - 1} && i - 1 !in removedBefore;
    KeptDropLast(a, removed, i);
    assert removed - {i - 1} == removedBefore;
    assert Kept(a, removed, i) == Kept(a, removedBefore, i - 1);
  }

  lemma AlignedIgnore<T>(a: seq<T>, b: seq<T>, i: nat, j: nat, q: seq<Entry<T>>)
    requires 0 < i <= |a| && 0 < j <= |b| && a[i - 1] == b[j - 1]
    requires AlignedAt(a, b, i - 1, j - 1, q)
    ensures AlignedAt(a, b, i, j, q)
  {
  }

  /** The patch is a diff: dropping its REMOVE lines from a[..i] and its ADD
      lines from b[..j] leaves the same sequence, its indices are in range,
      and it names every index at most once. */
  lemma {:induction false} TraceAligns<T>(a: seq<T>, b: seq<T>, i: nat, j: nat)
    requires i <= |a| && j <= |b|
    ensures AlignedAt(a, b, i, j, Trace(a, b, i, j))
    decreases i + j, 1
  {
    if i == 0 && j == 0 {
    } else if Choice(a, b, i, j) == ADD {
      TraceAlignsAdd(a, b, i, j);
    } else if Choice(a, b, i, j) == REMOVE {
      TraceAlignsRemove(a, b, i, j);
    } else {
      TraceAlignsIgnore(a, b, i, j);
    }
  }

  lemma {:induction false} TraceAlignsAdd<T>(a: seq<T>, b: seq<T>, i: nat, j: nat)
    requires i <= |a| && j <= |b| && 0 < i + j && Choice(a, b, i, j) == ADD
    ensures AlignedAt(a, b, i, j, Trace(a, b, i, j))
    decreases i + j, 0
  {
    TraceAligns(a, b, i, j - 1);
    AlignedAdd(a, b, i, j, Trace(a, b, i, j - 1));
  }

  lemma {:induction false} TraceAlignsRemove<T>(a: seq<T>, b: seq<T>, i: nat, j: nat)
    requires i <= |a| && j <= |b| && 0 < i + j && Choice(a, b, i, j) == REMOVE
    ensures AlignedAt(a, b, i, j, Trace(a, b, i, j))
    decreases i + j, 0
  {
    TraceAligns(a, b, i - 1, j);
    AlignedRemove(a, b, i, j, Trace(a, b, i - 1, j));
  }

  lemma {:induction false} TraceAlignsIgnore<T>(a: seq<T>, b: seq<T>, i: nat, j: nat)
    requires i <= |a| && j <= |b| && 0 < i + j && Choice(a, b, i, j) == IGNORE
    ensures AlignedAt(a, b, i, j, Trace(a, b, i, j))
    decreases i + j, 0
  {
    TraceAligns(a, b, i - 1, j - 1);
    AlignedIgnore(a, b, i, j, Trace(a, b, i - 1, j - 1));
  }

  /** Appending one line to b changes the distance by at most one. */
  lemma {:induction false} DistStepSecond<T>(a: seq<T>, b: seq<T>, i: nat, j: nat)
    requires i <= |a| && j < |b|
    ensures Dist(a, b, i, j) <= Dist(a, b, i, j + 1) + 1
    ensures Dist(a, b, i, j + 1) <= Dist(a, b, i, j) + 1
    decreases i + j
  {
    if i > 0 {
      if a[i - 1] == b[j] {
        DistStepFirst(a, b, i - 1, j);
      } else {
        DistStepSecond(a, b, i - 1, j);
        DistStepFirst(a, b, i - 1, j);
      }
    }
  }

  /** Appending one line to a changes the distance by at most one. */
  lemma {:induction false} DistStepFirst<T>(a: seq<T>, b: seq<T>, i: nat, j: nat)
    requires i < |a| && j <= |b|
    ensures Dist(a, b, i, j) <= Dist(a, b, i + 1, j) + 1
    ensures Dist(a, b, i + 1, j) <= Dist(a, b, i, j) + 1
    decreases i + j
  {
    if j > 0 {
      if a[i] == b[j - 1] {
        DistStepSecond(a, b, i, j - 1);
      } else {
        DistStepFirst(a, b, i, j - 1);
        DistStepSecond(a, b, i, j - 1);
      }
    }
  }

  /** No way of turning a[..i] into b[..j] by removing and adding lines uses
      fewer edits than Dist: the table holds the minimal edit distance. */
  lemma {:induction false} DistMinimal<T>(a: seq<T>, b: seq<T>, i: nat, j: nat,
                                          removed: set<nat>, added: set<nat>)
    requires i <= |a| && j <= |b|
    requires forall k :: k in removed ==> k < i
    requires forall k :: k in added ==> k < j
    requires Kept(a, removed, i) == Kept(b, added, j)
    ensures Dist(a, b, i, j) <= |removed| + |added|
    decreases i + j, 1
  {
    if i > 0 && i - 1 in removed {
      DistMinimalRemoved(a, b, i, j, removed, added);
    } else if j > 0 && j - 1 in added {
      DistMinimalAdded(a, b, i, j, removed, added);
    } else if i > 0 && j > 0 {
      SnocInjective(Kept(a, removed, i - 1), a[i - 1], Kept(b, added, j - 1), b[j - 1]);
      DistMinimal(a, b, i - 1, j - 1, removed, added);
    } else if i + j > 0 {
      // one prefix keeps its last line, the other keeps nothing
      assert false;
    }
  }

  /** DistMinimal when line i - 1 of a is among the removed ones. */
  lemma {:induction false} DistMinimalRemoved<T>(a: seq<T>, b: seq<T>, i: nat, j: nat,
                                                 removed: set<nat>, added: set<nat>)
    requires 0 < i <= |a| && j <= |b| && i - 1 in removed
    requires forall k :: k in removed ==> k < i
    requires forall k :: k in added ==> k < j
    requires Kept(a, removed, i) == Kept(b, added, j)
    ensures Dist(a, b, i, j) <= |removed| + |added|
    decreases i + j, 0
  {
    KeptDropLast(a, removed, i);
    DistMinimal(a, b, i - 1, j, removed - {i - 1}, added);
    DistStepFirst(a, b, i - 1, j);
  }

  /** DistMinimal when line j - 1 of b is among the added ones. */
  lemma {:induction false} DistMinimalAdded<T>(a: seq<T>, b: seq<T>, i: nat, j: nat,
                                               removed: set<nat>, added: set<nat>)
    requires i <= |a| && 0 < j <= |b| && j - 1 in added
    requires forall k :: k in removed ==> k < i
    requires forall k :: k in added ==> k < j
    requires Kept(a, removed, i) == Kept(b, added, j)
    ensures Dist(a, b, i, j) <= |removed| + |added|
    decreases i + j, 0
  {
    KeptDropLast(b, added, j);
    DistMinimal(a, b, i, j - 1, removed, added - {j - 1});
    DistStepSecond(a, b, i, j - 1);
  }

  /** The distance does not depend on which sequence comes first. */
  lemma {:induction false} DistSymmetric<T>(a: seq<T>, b: seq<T>, i: nat, j: nat)
    requires i <= |a| && j <= |b|
    ensures Dist(a, b, i, j) == Dist(b, a, j, i)
    decreases i + j
  {
    if i > 0 && j > 0 {
      if a[i - 1] == b[j - 1] {
        DistSymmetric(a, b, i - 1, j - 1);
      } else {
        DistSymmetric(a, b, i - 1, j);
        DistSymmetric(a, b, i, j - 1);
      }
    }
  }

  /** Two equal prefixes are at distance zero and give an empty patch. */
  lemma {:induction false} TraceIdentical<T>(a: seq<T>, i: nat)
    requires i <= |a|
    ensures Dist(a, a, i, i) == 0
    ensures Trace(a, a, i, i) == []
  {
    if i > 0 {
      TraceIdentical(a, i - 1);
    }
  }
}
