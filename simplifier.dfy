/**
 * The path simplifier: one left-to-right pass that keeps the first and last cell
 * and every interior cell whose offset from the LAST KEPT cell differs from the
 * step to the next cell. Because the comparison is against the last kept cell and
 * not the previous input cell, straight runs are thinned rather than collapsed,
 * a one-cell path comes out doubled, and the pass is not idempotent.
 */
module Simplifier {
  import opened Grid
  import opened Directions

  /** The cells of `path` at the indices `idx`, in the order of `idx`. */
  function Pick(path: seq<Pos>, idx: seq<nat>): (r: seq<Pos>)
    requires forall k :: 0 <= k < |idx| ==> idx[k] < |path|
    ensures |r| == |idx|
    ensures forall k :: 0 <= k < |idx| ==> r[k] == path[idx[k]]
  {
    seq(|idx|, k requires 0 <= k < |idx| => path[idx[k]])
  }

  lemma PickSnoc(path: seq<Pos>, idx: seq<nat>, i: nat)
    requires forall k :: 0 <= k < |idx| ==> idx[k] < |path|
    requires i < |path|
    ensures Pick(path, idx + [i]) == Pick(path, idx) + [path[i]]
  {
  }

  /** The last kept cell, given the interior indices kept so far. */
  function LastKeptOf(path: seq<Pos>, idx: seq<nat>): Pos
    requires |path| > 0
    requires forall k :: 0 <= k < |idx| ==> idx[k] < |path|
  {
    if idx == [] then path[0] else path[idx[|idx| - 1]]
  }

  /**
   * The interior indices in [1, n) that the pass keeps: index i is kept when the
   * offset from the last kept cell to path[i] differs from path[i + 1] - path[i].
   */
  function KeptIndices(path: seq<Pos>, n: nat): (idx: seq<nat>)
    requires n <= 1 || n < |path|
    ensures forall k :: 0 <= k < |idx| ==> 1 <= idx[k] < n
    ensures |idx| <= if n == 0 then 0 else n - 1
  {
    if n <= 1 then []
    else
      var prev := KeptIndices(path, n - 1);
      var i := n - 1;
      if Sub(path[i], LastKeptOf(path, prev)) != Sub(path[i + 1], path[i]) then prev + [i] else prev
  }

  /** The last cell kept before interior index i is examined. */
  function LastKept(path: seq<Pos>, i: nat): Pos
    requires 1 <= i < |path|
  {
    LastKeptOf(path, KeptIndices(path, i))
  }

  /** Whether the pass keeps interior index i. */
  predicate Kept(path: seq<Pos>, i: nat)
    requires 1 <= i < |path| - 1
  {
    i in KeptIndices(path, |path| - 1)
  }

  /** The result of the pass, as a function of its input. */
  function Simplify(path: seq<Pos>): (r: seq<Pos>)
    ensures path == [] <==> r == []
    ensures path != [] ==> |r| >= 2 && r[0] == path[0] && r[|r| - 1] == path[|path| - 1]
    ensures |path| >= 2 ==> |r| <= |path|
  {
    if path == [] then []
    else [path[0]] + Pick(path, KeptIndices(path, |path| - 1)) + [path[|path| - 1]]
  }

  /** The indices of the input that Simplify's cells come from, in order. */
  function SimplifyIndices(path: seq<Pos>): seq<nat>
    requires path != []
  {
    [0] + KeptIndices(path, |path| - 1) + [|path| - 1]
  }

  /** `sub` is the subsequence of `s` at the strictly increasing indices `idx`. */
  predicate SubsequenceAt(sub: seq<Pos>, s: seq<Pos>, idx: seq<nat>) {
    && |idx| == |sub|
    && (forall k :: 0 <= k < |idx| ==> idx[k] < |s| && sub[k] == s[idx[k]])
    && (forall k, l :: 0 <= k < l < |idx| ==> idx[k] < idx[l])
  }

  /** One iteration of the pass extends the kept prefix by exactly what KeptIndices adds. */
  lemma SimplifyStep(path: seq<Pos>, i: nat, newPath: seq<Pos>)
    requires 1 <= i < |path| - 1
    requires newPath == [path[0]] + Pick(path, KeptIndices(path, i))
    ensures newPath[|newPath| - 1] == LastKept(path, i)
    ensures Sub(path[i], LastKept(path, i)) != Sub(path[i + 1], path[i]) ==>
              newPath + [path[i]] == [path[0]] + Pick(path, KeptIndices(path, i + 1))
    ensures Sub(path[i], LastKept(path, i)) == Sub(path[i + 1], path[i]) ==>
              newPath == [path[0]] + Pick(path, KeptIndices(path, i + 1))
  {
    var before := KeptIndices(path, i);
    if Sub(path[i], LastKept(path, i)) != Sub(path[i + 1], path[i]) {
      PickSnoc(path, before, i);
    }
  }

  /**
   * The one-pass filter: keep the first cell, keep each interior cell whose step
   * from the last kept cell differs from the step to the next cell, then append
   * the last cell.
   */
  method SimplifyPath(path: seq<Pos>) returns (newPath: seq<Pos>)
    ensures newPath == Simplify(path)
  {
    if path == [] {
      return [];
    }
    newPath := [path[0]];
    var i := 1;
    while i < |path| - 1
      invariant 1 <= i && (i == 1 || i <= |path| - 1)
      invariant newPath == [path[0]] + Pick(path, KeptIndices(path, i))
    {
      SimplifyStep(path, i, newPath);
      var prev := newPath[|newPath| - 1];
      var curr := path[i];
      var next := path[i + 1];
      if Sub(curr, prev) != Sub(next, curr) {
        newPath := newPath + [curr];
      }
      assert newPath == [path[0]] + Pick(path, KeptIndices(path, i + 1));
      i := i + 1;
    }
    SimplifyFinish(path, i, newPath);
    newPath := newPath + [path[|path| - 1]];
  }

  /** When the scan stops, appending the last cell completes the result. */
  lemma SimplifyFinish(path: seq<Pos>, i: nat, newPath: seq<Pos>)
    requires path != [] && 1 <= i && (i == 1 || i <= |path| - 1) && i >= |path| - 1
    requires newPath == [path[0]] + Pick(path, KeptIndices(path, i))
    ensures newPath + [path[|path| - 1]] == Simplify(path)
  {
    assert KeptIndices(path, i) == KeptIndices(path, |path| - 1);
  }

  /** The kept indices come out strictly increasing. */
  lemma {:induction false} KeptIndicesIncreasing(path: seq<Pos>, n: nat)
    requires n <= 1 || n < |path|
    ensures forall k, l :: 0 <= k < l < |KeptIndices(path, n)| ==> KeptIndices(path, n)[k] < KeptIndices(path, n)[l]
  {
    if n > 1 {
      KeptIndicesIncreasing(path, n - 1);
    }
  }

  /** Scanning further only appends: the kept indices below m are the same at every later n. */
  lemma {:induction false} KeptIndicesGrow(path: seq<Pos>, m: nat, n: nat)
    requires 1 <= m <= n && (n <= 1 || n < |path|)
    ensures KeptIndices(path, m) <= KeptIndices(path, n)
    ensures forall k :: |KeptIndices(path, m)| <= k < |KeptIndices(path, n)| ==> KeptIndices(path, n)[k] >= m
    decreases n - m
  {
    if m < n {
      KeptIndicesGrow(path, m, n - 1);
      var prev := KeptIndices(path, n - 1);
      assert KeptIndices(path, n) == prev || KeptIndices(path, n) == prev + [n - 1];
    }
  }

  /**
   * The selection rule: interior cell i survives exactly when its offset from
   * the last kept cell differs from the step to the next cell.
   */
  lemma KeptRule(path: seq<Pos>, i: nat)
    requires 1 <= i < |path| - 1
    ensures Kept(path, i) <==> Sub(path[i], LastKept(path, i)) != Sub(path[i + 1], path[i])
  {
    var upTo := KeptIndices(path, i + 1);
    var all := KeptIndices(path, |path| - 1);
    KeptIndicesGrow(path, i + 1, |path| - 1);
    assert all == upTo + all[|upTo|..];
    assert i !in all[|upTo|..];
    var before := KeptIndices(path, i);
    assert i !in before;
    if Sub(path[i], LastKept(path, i)) != Sub(path[i + 1], path[i]) {
      assert upTo == before + [i];
    } else {
      assert upTo == before;
    }
  }

  /** First cell, the picked cells at increasing interior indices, last cell: a subsequence. */
  lemma FramedPickIsSubsequence(path: seq<Pos>, kept: seq<nat>)
    requires |path| >= 2
    requires forall k :: 0 <= k < |kept| ==> 1 <= kept[k] < |path| - 1
    requires forall k, l :: 0 <= k < l < |kept| ==> kept[k] < kept[l]
    ensures SubsequenceAt([path[0]] + Pick(path, kept) + [path[|path| - 1]], path, [0] + kept + [|path| - 1])
  {
    var idx := [0] + kept + [|path| - 1];
    var r := [path[0]] + Pick(path, kept) + [path[|path| - 1]];
    forall k | 0 <= k < |idx|
      ensures idx[k] < |path| && r[k] == path[idx[k]]
    {
      if 0 < k < |idx| - 1 {
        assert idx[k] == kept[k - 1];
        assert r[k] == Pick(path, kept)[k - 1];
      }
    }
    forall k, l | 0 <= k < l < |idx|
      ensures idx[k] < idx[l]
    {
      if 0 < k && l < |idx| - 1 {
        assert idx[k] == kept[k - 1] && idx[l] == kept[l - 1];
      }
    }
  }

  /** Every cell of the output, except a doubled single cell, is a cell of the input, in input order. */
  lemma SimplifyIsSubsequence(path: seq<Pos>)
    requires |path| >= 2
    ensures SubsequenceAt(Simplify(path), path, SimplifyIndices(path))
  {
    KeptIndicesIncreasing(path, |path| - 1);
    FramedPickIsSubsequence(path, KeptIndices(path, |path| - 1));
  }

  /** A one-cell path is not left alone: its cell comes out twice. */
  lemma SimplifySingleton(p: Pos)
    ensures Simplify([p]) == [p, p]
  {
  }

  /**
   * The last kept cell before index i is either the previous cell, or (when the
   * previous cell was dropped) one more step of the same size behind it.
   */
  lemma LastKeptShape(path: seq<Pos>, i: nat)
    requires 1 <= i < |path|
    ensures LastKept(path, i) == path[i - 1] || Sub(path[i - 1], LastKept(path, i)) == Sub(path[i], path[i - 1])
  {
    if i > 1 {
      var prev := KeptIndices(path, i - 1);
      assert LastKept(path, i - 1) == LastKeptOf(path, prev);
    }
  }

  /** On a unit-step path every genuine turn is kept. */
  lemma TurnKept(path: seq<Pos>, i: nat)
    requires UnitSteps(path)
    requires 1 <= i < |path| - 1
    requires Sub(path[i], path[i - 1]) != Sub(path[i + 1], path[i])
    ensures Kept(path, i)
  {
    KeptRule(path, i);
    LastKeptShape(path, i);
    assert IsDirection(Sub(path[i], path[i - 1]));
    assert IsDirection(Sub(path[i + 1], path[i]));
  }

  /**
   * On a unit-step path two consecutive interior cells are never both dropped:
   * after a dropped cell the offset from the last kept cell is two steps long.
   * This is why straight runs are thinned and not collapsed.
   */
  lemma NoTwoDropsInRow(path: seq<Pos>, i: nat)
    requires UnitSteps(path)
    requires 1 <= i && i + 1 < |path| - 1
    requires !Kept(path, i)
    ensures Kept(path, i + 1)
  {
    KeptRule(path, i);
    KeptRule(path, i + 1);
    assert KeptIndices(path, i + 1) == KeptIndices(path, i);
    assert IsDirection(Sub(path[i + 1], path[i]));
    assert IsDirection(Sub(path[i + 2], path[i + 1]));
  }

  /** Three cells in a straight line, equally spaced, lose their middle cell. */
  lemma ThreeInLine(a: Pos, d: Pos)
    ensures var b := Add(a, d); var c := Add(b, d);
            Simplify([a, b, c]) == [a, c]
  {
    MiddleDropped(a, Add(a, d), Add(Add(a, d), d));
  }

  lemma MiddleDropped(a: Pos, b: Pos, c: Pos)
    requires Sub(b, a) == Sub(c, b)
    ensures Simplify([a, b, c]) == [a, c]
  {
    var path := [a, b, c];
    assert KeptIndices(path, 1) == [];
    assert KeptIndices(path, 2) == [];
  }

  /** Four cells in a straight unit-step line keep the third one: the run is thinned, not collapsed. */
  lemma FourInLine(a: Pos, d: Pos)
    requires IsDirection(d)
    ensures var b := Add(a, d); var c := Add(b, d); var e := Add(c, d);
            Simplify([a, b, c, e]) == [a, c, e]
  {
    var b := Add(a, d);
    var c := Add(b, d);
    var e := Add(c, d);
    var path := [a, b, c, e];
    assert KeptIndices(path, 1) == [];
    assert KeptIndices(path, 2) == [];
    assert KeptIndices(path, 3) == [2];
  }

  /** Applying the pass twice to a straight run of five cells gives less than applying it once. */
  lemma NotIdempotent(a: Pos, d: Pos)
    requires IsDirection(d)
    ensures var path := [a, Add(a, d), Add(Add(a, d), d), Add(Add(Add(a, d), d), d), Add(Add(Add(Add(a, d), d), d), d)];
            Simplify(Simplify(path)) != Simplify(path)
  {
    var c := Add(Add(a, d), d);
    var f := Add(Add(c, d), d);
    FiveInLine(a, d);
    MiddleDropped(a, c, f);
  }

  /** Five cells in a straight unit-step line keep the first, the third and the last. */
  lemma FiveInLine(a: Pos, d: Pos)
    requires IsDirection(d)
    ensures var b := Add(a, d); var c := Add(b, d); var e := Add(c, d); var f := Add(e, d);
            Simplify([a, b, c, e, f]) == [a, c, f]
  {
    var b := Add(a, d);
    var c := Add(b, d);
    var e := Add(c, d);
    var f := Add(e, d);
    var path := [a, b, c, e, f];
    assert Sub(b, a) == Sub(c, b) && Sub(e, c) == Sub(f, e);
    assert Sub(c, a) != Sub(e, c);
    assert KeptIndices(path, 1) == [];
    assert KeptIndices(path, 2) == [];
    assert KeptIndices(path, 3) == [2];
    assert KeptIndices(path, 4) == [2];
  }
}
