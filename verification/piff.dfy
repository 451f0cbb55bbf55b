/**
  The line diff of piff.py: fill the distance and action tables, walk the
  actions back from the last cell into a patch, and render one line per
  entry. The tables equal EditDistance.Dist and EditDistance.Choice, and the
  patch equals EditDistance.Trace, whose properties are proved there.
*/
module Piff {
  import opened EditDistance
  import opened PatchFormat

  /** Allocates the two (|lines1| + 1) x (|lines2| + 1) tables and fills
      them: the first row with ADD moves, the first column with REMOVE moves,
      then every other cell row by row from its three neighbours. */
  method FillTables(lines1: seq<string>, lines2: seq<string>)
    returns (distances: array2<int>, actions: array2<char>)
    ensures fresh(distances) && fresh(actions)
    ensures distances.Length0 == |lines1| + 1 && distances.Length1 == |lines2| + 1
    ensures actions.Length0 == |lines1| + 1 && actions.Length1 == |lines2| + 1
    ensures forall i, j :: 0 <= i <= |lines1| && 0 <= j <= |lines2| ==>
              distances[i, j] == Dist(lines1, lines2, i, j) && actions[i, j] == Choice(lines1, lines2, i, j)
  {
    var m1, m2 := |lines1|, |lines2|;
    distances := new int[m1 + 1, m2 + 1]((_, _) => 0);
    actions := new char[m1 + 1, m2 + 1]((_, _) => '-');

    distances[0, 0] := 0;
    actions[0, 0] := IGNORE;

    for n2 := 1 to m2 + 1
      invariant forall j :: 0 <= j < n2 ==>
                  distances[0, j] == Dist(lines1, lines2, 0, j) && actions[0, j] == Choice(lines1, lines2, 0, j)
    {
      distances[0, n2] := n2;
      actions[0, n2] := ADD;
    }

    for n1 := 1 to m1 + 1
      invariant forall i, j :: 0 <= i < n1 && 0 <= j <= m2 && (i == 0 || j == 0) ==>
                  distances[i, j] == Dist(lines1, lines2, i, j) && actions[i, j] == Choice(lines1, lines2, i, j)
    {
      distances[n1, 0] := n1;
      actions[n1, 0] := REMOVE;
    }

    for n1 := 1 to m1 + 1
      invariant forall i, j :: 0 <= i <= m1 && 0 <= j <= m2 && (i < n1 || j == 0) ==>
                  distances[i, j] == Dist(lines1, lines2, i, j) && actions[i, j] == Choice(lines1, lines2, i, j)
    {
      for n2 := 1 to m2 + 1
        invariant forall i, j :: 0 <= i <= m1 && 0 <= j <= m2 && (i < n1 || (i == n1 && j < n2) || j == 0) ==>
                    distances[i, j] == Dist(lines1, lines2, i, j) && actions[i, j] == Choice(lines1, lines2, i, j)
      {
        FillCell(lines1, lines2, distances, actions, n1, n2);
      }
    }
  }

  /** Fills cell (n1, n2) from its upper, left and upper-left neighbours:
      equal lines copy the diagonal, otherwise the cheaper of removing
      (from above) and adding (from the left) plus one, a tie going to
      REMOVE. No other cell changes. */
  method FillCell(lines1: seq<string>, lines2: seq<string>,
                  distances: array2<int>, actions: array2<char>, n1: nat, n2: nat)
    requires distances.Length0 == |lines1| + 1 && distances.Length1 == |lines2| + 1
    requires actions.Length0 == |lines1| + 1 && actions.Length1 == |lines2| + 1
    requires 0 < n1 <= |lines1| && 0 < n2 <= |lines2|
    requires distances[n1 - 1, n2 - 1] == Dist(lines1, lines2, n1 - 1, n2 - 1)
    requires distances[n1 - 1, n2] == Dist(lines1, lines2, n1 - 1, n2)
    requires distances[n1, n2 - 1] == Dist(lines1, lines2, n1, n2 - 1)
    modifies distances, actions
    ensures distances[n1, n2] == Dist(lines1, lines2, n1, n2)
    ensures actions[n1, n2] == Choice(lines1, lines2, n1, n2)
    ensures forall i, j :: 0 <= i <= |lines1| && 0 <= j <= |lines2| && (i != n1 || j != n2) ==>
              distances[i, j] == old(distances[i, j]) && actions[i, j] == old(actions[i, j])
  {
    if lines1[n1 - 1] == lines2[n2 - 1] {
      distances[n1, n2] := distances[n1 - 1, n2 - 1];
      actions[n1, n2] := IGNORE;
      return;
    }

    var remove := distances[n1 - 1, n2];
    var add := distances[n1, n2 - 1];

    distances[n1, n2] := remove;
    actions[n1, n2] := REMOVE;

    if distances[n1, n2] > add {
      distances[n1, n2] := add;
      actions[n1, n2] := ADD;
    }

    distances[n1, n2] := distances[n1, n2] + 1;
  }

  /** s in the opposite order, as Python's list.reverse() leaves it. */
  function Reversed<T>(s: seq<T>): (r: seq<T>)
  {
    seq(|s|, k requires 0 <= k < |s| => s[|s| - 1 - k])
  }

  lemma ReversedSnoc<T>(s: seq<T>, x: T)
    ensures Reversed(s + [x]) == [x] + Reversed(s)
  {
  }

  /** An ADD step of the backtrace keeps Trace(n1, n2) + Reversed(patch)
      unchanged. */
  lemma BacktraceStepAdd(a: seq<string>, b: seq<string>, n1: nat, n2: nat, patch: seq<Entry<string>>)
    requires n1 <= |a| && n2 <= |b| && 0 < n1 + n2 && Choice(a, b, n1, n2) == ADD
    ensures Trace(a, b, n1, n2 - 1) + Reversed(patch + [Entry(ADD, n2 - 1, b[n2 - 1])])
            == Trace(a, b, n1, n2) + Reversed(patch)
  {
    ReversedSnoc(patch, Entry(ADD, n2 - 1, b[n2 - 1]));
  }

  /** A REMOVE step of the backtrace keeps Trace(n1, n2) + Reversed(patch)
      unchanged. */
  lemma BacktraceStepRemove(a: seq<string>, b: seq<string>, n1: nat, n2: nat, patch: seq<Entry<string>>)
    requires n1 <= |a| && n2 <= |b| && 0 < n1 + n2 && Choice(a, b, n1, n2) == REMOVE
    ensures Trace(a, b, n1 - 1, n2) + Reversed(patch + [Entry(REMOVE, n1 - 1, a[n1 - 1])])
            == Trace(a, b, n1, n2) + Reversed(patch)
  {
    ReversedSnoc(patch, Entry(REMOVE, n1 - 1, a[n1 - 1]));
  }

  /** An IGNORE step of the backtrace away from the origin moves diagonally
      without adding to the patch. */
  lemma BacktraceStepIgnore(a: seq<string>, b: seq<string>, n1: nat, n2: nat)
    requires n1 <= |a| && n2 <= |b| && 0 < n1 + n2 && Choice(a, b, n1, n2) == IGNORE
    ensures 0 < n1 && 0 < n2 && Trace(a, b, n1 - 1, n2 - 1) == Trace(a, b, n1, n2)
  {
  }

  /** Walks the action table from (|lines1|, |lines2|) back to (0, 0),
      collecting an entry for every ADD and REMOVE move, then reverses the
      collected entries. Every visited cell holds one of the three moves, so
      the last branch is never taken. */
  method Backtrace(lines1: seq<string>, lines2: seq<string>, actions: array2<char>)
    returns (patch: seq<Entry<string>>)
    requires actions.Length0 == |lines1| + 1 && actions.Length1 == |lines2| + 1
    requires forall i, j :: 0 <= i <= |lines1| && 0 <= j <= |lines2| ==>
               actions[i, j] == Choice(lines1, lines2, i, j)
    ensures patch == Trace(lines1, lines2, |lines1|, |lines2|)
  {
    ghost var total := Trace(lines1, lines2, |lines1|, |lines2|);
    patch := [];
    var n1, n2 := |lines1|, |lines2|;
    while n1 > 0 || n2 > 0
      invariant 0 <= n1 <= |lines1| && 0 <= n2 <= |lines2|
      invariant Trace(lines1, lines2, n1, n2) + Reversed(patch) == total
      decreases n1 + n2
    {
      var action := actions[n1, n2];
      if action == ADD {
        BacktraceStepAdd(lines1, lines2, n1, n2, patch);
        n2 := n2 - 1;
        patch := patch + [Entry(ADD, n2, lines2[n2])];
      } else if action == REMOVE {
        BacktraceStepRemove(lines1, lines2, n1, n2, patch);
        n1 := n1 - 1;
        patch := patch + [Entry(REMOVE, n1, lines1[n1])];
      } else if action == IGNORE {
        BacktraceStepIgnore(lines1, lines2, n1, n2);
        n1 := n1 - 1;
        n2 := n2 - 1;
      } else {
        assert false;
      }
    }
    patch := Reversed(patch);
  }

  /** The patch from lines1 to lines2: a minimal diff whose entries add lines
      of lines2 or remove lines of lines1, each kind in increasing index
      order, and empty when the two sequences are equal. */
  method Diff(lines1: seq<string>, lines2: seq<string>) returns (patch: seq<Entry<string>>)
    ensures patch == Trace(lines1, lines2, |lines1|, |lines2|)
    ensures |patch| == Dist(lines1, lines2, |lines1|, |lines2|) <= |lines1| + |lines2|
    ensures forall e :: e in patch ==> ValidEntry(lines1, lines2, |lines1|, |lines2|, e)
    ensures Ordered(patch)
    ensures Aligns(lines1, lines2, Indices(patch, REMOVE), Indices(patch, ADD))
    ensures |Indices(patch, REMOVE)| + |Indices(patch, ADD)| == |patch|
    ensures forall removed, added :: Aligns(lines1, lines2, removed, added) ==> |patch| <= |removed| + |added|
    ensures lines1 == lines2 ==> patch == []
  {
    var distances, actions := FillTables(lines1, lines2);
    patch := Backtrace(lines1, lines2, actions);

    TraceLength(lines1, lines2, |lines1|, |lines2|);
    DistBounds(lines1, lines2, |lines1|, |lines2|);
    TraceEntries(lines1, lines2, |lines1|, |lines2|);
    TraceOrdered(lines1, lines2, |lines1|, |lines2|);
    TraceAligns(lines1, lines2, |lines1|, |lines2|);
    forall removed, added | Aligns(lines1, lines2, removed, added)
      ensures |patch| <= |removed| + |added|
    {
      DistMinimal(lines1, lines2, |lines1|, |lines2|, removed, added);
    }
    if lines1 == lines2 {
      TraceIdentical(lines1, |lines1|);
    }
  }

  /** One output line per patch entry, in patch order. */
  method RenderPatch(patch: seq<Entry<string>>) returns (output: seq<string>)
    ensures |output| == |patch|
    ensures forall k :: 0 <= k < |patch| ==> output[k] == EntryLine(patch[k])
  {
    output := [];
    for k := 0 to |patch|
      invariant |output| == k
      invariant forall l :: 0 <= l < k ==> output[l] == EntryLine(patch[l])
    {
      var e := patch[k];
      output := output + [EntryLine(e)];
    }
  }

  /** The whole program between reading the two files and writing to
      standard output: the rendered patch, one line per edit, as many lines
      as the edit distance, none when the inputs are equal. */
  method Run(lines1: seq<string>, lines2: seq<string>) returns (output: seq<string>)
    ensures |output| == |Trace(lines1, lines2, |lines1|, |lines2|)| == Dist(lines1, lines2, |lines1|, |lines2|)
    ensures forall k :: 0 <= k < |output| ==> output[k] == EntryLine(Trace(lines1, lines2, |lines1|, |lines2|)[k])
    ensures lines1 == lines2 ==> output == []
  {
    var patch := Diff(lines1, lines2);
    output := RenderPatch(patch);
  }
}
