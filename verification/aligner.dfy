/** The resynchronising word aligner of the position-tracking viewer
    (`compare_with_resync`): a two-pointer walk over two token lists that
    records deletions, insertions and replacements, and on a mismatch first
    tries to re-join split words and then to find the next common token a few
    positions ahead. */
module Aligner {
  import opened Basics

  // ---------------------------------------------------------------------
  // Output records
  // ---------------------------------------------------------------------

  /** `('delete', i, None)`, `('insert', None, j)` and `('replace', i, j)`. */
  datatype Edit = Delete(left: nat) | Insert(right: nat) | Replace(left: nat, right: nat)

  /** Deletions of the left indices `a .. b-1`, in order. */
  function Deletes(a: nat, b: nat): (d: seq<Edit>)
    requires a <= b
    ensures |d| == b - a
    ensures forall k | 0 <= k < |d| :: d[k] == Delete(a + k)
  {
    seq(b - a, k requires 0 <= k < b - a => Delete(a + k))
  }

  /** Insertions of the right indices `a .. b-1`, in order. */
  function Inserts(a: nat, b: nat): (d: seq<Edit>)
    requires a <= b
    ensures |d| == b - a
    ensures forall k | 0 <= k < |d| :: d[k] == Insert(a + k)
  {
    seq(b - a, k requires 0 <= k < b - a => Insert(a + k))
  }

  /** The left indices an edit list mentions, in order. */
  function LeftIndices(d: seq<Edit>): seq<nat> {
    if d == [] then []
    else (if d[0].Insert? then [] else [d[0].left]) + LeftIndices(d[1..])
  }

  /** The right indices an edit list mentions, in order. */
  function RightIndices(d: seq<Edit>): seq<nat> {
    if d == [] then []
    else (if d[0].Delete? then [] else [d[0].right]) + RightIndices(d[1..])
  }

  predicate Increasing(s: seq<nat>) {
    forall a, b | 0 <= a < b < |s| :: s[a] < s[b]
  }

  predicate Within(s: seq<nat>, lo: nat, hi: nat) {
    forall a | 0 <= a < |s| :: lo <= s[a] < hi
  }

  // ---------------------------------------------------------------------
  // Bounded searches
  // ---------------------------------------------------------------------

  /** The most tokens a merge glues together. */
  const MaxMerged: nat := 5

  /** The largest offset `k` of `range(1, min(limit + 1, n - i))`. */
  function Reach(limit: nat, n: nat, i: nat): (t: nat)
    requires i < n
    ensures t <= limit && i + t < n
  {
    if limit <= n - i - 1 then limit else n - i - 1
  }

  /** `L[i + x] == R[j + y]`: a common token `x` ahead on the left and `y` ahead on the right. */
  predicate Hit(L: seq<string>, R: seq<string>, i: nat, j: nat, x: nat, y: nat) {
    i + x < |L| && j + y < |R| && L[i + x] == R[j + y]
  }

  /** The smallest `k` in `from .. top` with `L[i + k] == R[j]`: the left lookahead. */
  function FirstLeftHit(L: seq<string>, R: seq<string>, i: nat, j: nat, top: nat, from: nat): (r: Option<nat>)
    requires i + top < |L| && j < |R|
    decreases top + 1 - from
    ensures r.Some? ==> from <= r.value <= top && Hit(L, R, i, j, r.value, 0)
    ensures r.Some? ==> forall k | from <= k < r.value :: !Hit(L, R, i, j, k, 0)
    ensures r.None? ==> forall k | from <= k <= top :: !Hit(L, R, i, j, k, 0)
  {
    if from > top then None
    else if L[i + from] == R[j] then Some(from)
    else FirstLeftHit(L, R, i, j, top, from + 1)
  }

  /** The smallest `k` in `from .. top` with `L[i] == R[j + k]`: the right lookahead. */
  function FirstRightHit(L: seq<string>, R: seq<string>, i: nat, j: nat, top: nat, from: nat): (r: Option<nat>)
    requires i < |L| && j + top < |R|
    decreases top + 1 - from
    ensures r.Some? ==> from <= r.value <= top && Hit(L, R, i, j, 0, r.value)
    ensures r.Some? ==> forall k | from <= k < r.value :: !Hit(L, R, i, j, 0, k)
    ensures r.None? ==> forall k | from <= k <= top :: !Hit(L, R, i, j, 0, k)
  {
    if from > top then None
    else if L[i] == R[j + from] then Some(from)
    else FirstRightHit(L, R, i, j, top, from + 1)
  }

  /** The `k + 1` tokens of `ws` starting at `start`, glued, equal `target`. */
  predicate GluesTo(ws: seq<string>, start: nat, k: nat, target: string) {
    start + k < |ws| && Flatten(ws[start..start + k + 1]) == target
  }

  /** The smallest `k` in `from .. top` such that the tokens `start .. start+k` glue to `target`. */
  function FirstGlue(ws: seq<string>, start: nat, top: nat, target: string, from: nat): (r: Option<nat>)
    requires start + top < |ws|
    decreases top + 1 - from
    ensures r.Some? ==> from <= r.value <= top && GluesTo(ws, start, r.value, target)
    ensures r.Some? ==> forall k | from <= k < r.value :: !GluesTo(ws, start, k, target)
    ensures r.None? ==> forall k | from <= k <= top :: !GluesTo(ws, start, k, target)
  {
    if from > top then None
    else if GluesTo(ws, start, from, target) then Some(from)
    else FirstGlue(ws, start, top, target, from + 1)
  }

  /** `(a, b)` is no worse than `(x, y)`: a smaller total distance, ties to fewer left skips. */
  predicate NoWorse(a: nat, b: nat, x: nat, y: nat) {
    a + b < x + y || (a + b == x + y && a <= x)
  }

  /** The pairs the row-major double loop has visited before `(k1, k2)`. */
  predicate Visited(t2: nat, k1: nat, k2: nat, x: nat, y: nat) {
    1 <= x && 1 <= y <= t2 && (x < k1 || (x == k1 && y < k2))
  }

  /** What the joint scan knows after visiting everything before `(k1, k2)`. */
  ghost predicate ScanState(L: seq<string>, R: seq<string>, i: nat, j: nat, t2: nat,
                      k1: nat, k2: nat, best: Option<(nat, nat)>)
  {
    && (best.None? ==> forall x: nat, y: nat | Visited(t2, k1, k2, x, y) :: !Hit(L, R, i, j, x, y))
    && (best.Some? ==>
          && Visited(t2, k1, k2, best.value.0, best.value.1)
          && Hit(L, R, i, j, best.value.0, best.value.1)
          && forall x: nat, y: nat | Visited(t2, k1, k2, x, y) && Hit(L, R, i, j, x, y) ::
               NoWorse(best.value.0, best.value.1, x, y))
  }

  /** One cell of the joint lookahead: the pair `(k1, k2)` replaces the
      best so far only when it is a common token at a strictly smaller
      distance. */
  function Pick(L: seq<string>, R: seq<string>, i: nat, j: nat, k1: nat, k2: nat,
                best: Option<(nat, nat)>): Option<(nat, nat)>
    requires i + k1 < |L| && j + k2 < |R|
  {
    if L[i + k1] == R[j + k2] && (best.None? || k1 + k2 < best.value.0 + best.value.1) then Some((k1, k2))
    else best
  }

  /** The joint lookahead: the double loop over `k1` (outer) and `k2` (inner)
      that keeps a pair only when its distance `k1 + k2` is strictly smaller. */
  function JointScan(L: seq<string>, R: seq<string>, i: nat, j: nat, t1: nat, t2: nat,
                     k1: nat, k2: nat, best: Option<(nat, nat)>): (r: Option<(nat, nat)>)
    requires i + t1 < |L| && j + t2 < |R|
    requires 1 <= k1 && 1 <= k2
    requires best.Some? ==> 1 <= best.value.0 <= t1 && 1 <= best.value.1 <= t2
    decreases t1 + 1 - k1, t2 + 1 - k2
    ensures r.Some? ==> 1 <= r.value.0 <= t1 && 1 <= r.value.1 <= t2
  {
    if k1 > t1 then best
    else if k2 > t2 then JointScan(L, R, i, j, t1, t2, k1 + 1, 1, best)
    else JointScan(L, R, i, j, t1, t2, k1, k2 + 1, Pick(L, R, i, j, k1, k2, best))
  }

  /** `r` is the nearest common pair of the window `1..t1` by `1..t2`, ties
      going to fewer left skips, or nothing when the window has none. */
  ghost predicate Nearest(L: seq<string>, R: seq<string>, i: nat, j: nat, t1: nat, t2: nat, r: Option<(nat, nat)>) {
    && (r.None? ==> forall x: nat, y: nat | 1 <= x <= t1 && 1 <= y <= t2 :: !Hit(L, R, i, j, x, y))
    && (r.Some? ==> Hit(L, R, i, j, r.value.0, r.value.1)
                    && forall x: nat, y: nat | 1 <= x <= t1 && 1 <= y <= t2 && Hit(L, R, i, j, x, y) ::
                         NoWorse(r.value.0, r.value.1, x, y))
  }

  /** The joint scan returns the nearest common pair in the window, ties going
      to the pair with fewer left skips; and nothing only if there is none. */
  lemma {:induction false} JointScanFindsNearest(L: seq<string>, R: seq<string>, i: nat, j: nat,
                                                 t1: nat, t2: nat, k1: nat, k2: nat,
                                                 best: Option<(nat, nat)>)
    requires i + t1 < |L| && j + t2 < |R|
    requires 1 <= k1 && 1 <= k2 <= t2 + 1
    requires best.Some? ==> 1 <= best.value.0 <= t1 && 1 <= best.value.1 <= t2
    requires k1 <= t1 + 1
    requires ScanState(L, R, i, j, t2, k1, k2, best)
    decreases t1 + 1 - k1, t2 + 1 - k2
    ensures Nearest(L, R, i, j, t1, t2, JointScan(L, R, i, j, t1, t2, k1, k2, best))
  {
    if k1 > t1 {
      ScanDone(L, R, i, j, t1, t2, k1, k2, best);
    } else if k2 > t2 {
      ScanRowEnd(L, R, i, j, t2, k1, k2, best);
      JointScanFindsNearest(L, R, i, j, t1, t2, k1 + 1, 1, best);
    } else {
      ScanCell(L, R, i, j, t2, k1, k2, best);
      JointScanFindsNearest(L, R, i, j, t1, t2, k1, k2 + 1, Pick(L, R, i, j, k1, k2, best));
    }
  }

  /** Once every row is visited, the state is the answer. */
  lemma ScanDone(L: seq<string>, R: seq<string>, i: nat, j: nat, t1: nat, t2: nat, k1: nat, k2: nat,
                 best: Option<(nat, nat)>)
    requires k1 == t1 + 1 && ScanState(L, R, i, j, t2, k1, k2, best)
    ensures Nearest(L, R, i, j, t1, t2, best)
  {
    forall x: nat, y: nat | 1 <= x <= t1 && 1 <= y <= t2
      ensures Visited(t2, k1, k2, x, y)
    {
    }
  }

  /** Finishing a row visits nothing new. */
  lemma ScanRowEnd(L: seq<string>, R: seq<string>, i: nat, j: nat, t2: nat, k1: nat, k2: nat,
                   best: Option<(nat, nat)>)
    requires k2 > t2 && ScanState(L, R, i, j, t2, k1, k2, best)
    ensures ScanState(L, R, i, j, t2, k1 + 1, 1, best)
  {
    forall x: nat, y: nat | Visited(t2, k1 + 1, 1, x, y)
      ensures Visited(t2, k1, k2, x, y)
    {
    }
  }

  /** Visiting one cell keeps the scan state. */
  lemma ScanCell(L: seq<string>, R: seq<string>, i: nat, j: nat, t2: nat, k1: nat, k2: nat,
                 best: Option<(nat, nat)>)
    requires i + k1 < |L| && j + k2 < |R| && 1 <= k1 && 1 <= k2 <= t2
    requires ScanState(L, R, i, j, t2, k1, k2, best)
    ensures ScanState(L, R, i, j, t2, k1, k2 + 1, Pick(L, R, i, j, k1, k2, best))
  {
    var next := Pick(L, R, i, j, k1, k2, best);
    forall x: nat, y: nat | Visited(t2, k1, k2 + 1, x, y)
      ensures Visited(t2, k1, k2, x, y) || (x == k1 && y == k2)
    {
    }
    if next != best {
      forall x: nat, y: nat | Visited(t2, k1, k2 + 1, x, y) && Hit(L, R, i, j, x, y)
        ensures NoWorse(k1, k2, x, y)
      {
        if Visited(t2, k1, k2, x, y) {
          assert best.Some? ==> NoWorse(best.value.0, best.value.1, x, y);
        }
      }
    }
  }

  // ---------------------------------------------------------------------
  // One iteration of the loop
  // ---------------------------------------------------------------------

  /** The records one iteration appends, and the two cursors after it. */
  datatype Move = Move(edits: seq<Edit>, ni: nat, nj: nat)

  /** The merge-check: when the current tokens differ in length, the shorter
      side glues its next 2 to 5 tokens together and compares them with the
      other side's current token; a success moves past all of them silently. */
  function Merge(L: seq<string>, R: seq<string>, i: nat, j: nat): (r: Option<Move>)
    requires i < |L| && j < |R|
    ensures r.Some? ==> r.value.edits == [] && i < r.value.ni <= |L| && j < r.value.nj <= |R|
  {
    if |L[i]| < |R[j]| then
      match FirstGlue(L, i, Reach(MaxMerged - 1, |L|, i), R[j], 1)
      case Some(k) => Some(Move([], i + k + 1, j + 1))
      case None => None
    else if |R[j]| < |L[i]| then
      match FirstGlue(R, j, Reach(MaxMerged - 1, |R|, j), L[i], 1)
      case Some(k) => Some(Move([], i + 1, j + k + 1))
      case None => None
    else None
  }

  /** The merge-check glues the fewest tokens of the shorter side that spell
      the other side's token, and fails only when no count from 2 to 5 does. */
  lemma MergeSpec(L: seq<string>, R: seq<string>, i: nat, j: nat)
    requires i < |L| && j < |R|
    ensures var r := Merge(L, R, i, j);
      && (r.Some? ==>
          || (r.value.nj == j + 1 && 2 <= r.value.ni - i <= MaxMerged && LeftMerges(L, R, i, j, r.value.ni - i - 1)
              && forall k | 1 <= k < r.value.ni - i - 1 :: !LeftMerges(L, R, i, j, k))
          || (r.value.ni == i + 1 && 2 <= r.value.nj - j <= MaxMerged && RightMerges(L, R, i, j, r.value.nj - j - 1)
              && forall k | 1 <= k < r.value.nj - j - 1 :: !RightMerges(L, R, i, j, k)))
      && (r.None? <==> NoMerge(L, R, i, j))
  {
  }

  /** The lookahead resynchronisation after a mismatch the merge-check could not explain. */
  function Resync(L: seq<string>, R: seq<string>, i: nat, j: nat, lookahead: nat): (m: Move)
    requires i < |L| && j < |R|
    ensures m.edits != []
    ensures i <= m.ni <= |L| && j <= m.nj <= |R| && m.ni + m.nj > i + j
  {
    var t1 := Reach(lookahead, |L|, i);
    var t2 := Reach(lookahead, |R|, j);
    match FirstLeftHit(L, R, i, j, t1, 1)
    case Some(k) => Move(Deletes(i, i + k), i + k, j)
    case None =>
      match FirstRightHit(L, R, i, j, t2, 1)
      case Some(k) => Move(Inserts(j, j + k), i, j + k)
      case None =>
        match JointScan(L, R, i, j, t1, t2, 1, 1, None)
        case Some(p) => Move(Deletes(i, i + p.0) + Inserts(j, j + p.1), i + p.0, j + p.1)
        case None => Move([Replace(i, j)], i + 1, j + 1)
  }

  /** One pass of the `while` body, when at least one side has tokens left. */
  function Step(L: seq<string>, R: seq<string>, i: nat, j: nat, lookahead: nat): (m: Move)
    requires i <= |L| && j <= |R| && (i < |L| || j < |R|)
    ensures i <= m.ni <= |L| && j <= m.nj <= |R|
    ensures m.ni + m.nj > i + j
  {
    if j == |R| then Move([Delete(i)], i + 1, j)
    else if i == |L| then Move([Insert(j)], i, j + 1)
    else if L[i] == R[j] then Move([], i + 1, j + 1)
    else
      match Merge(L, R, i, j)
      case Some(m) => m
      case None => Resync(L, R, i, j, lookahead)
  }

  /** The records the loop produces from cursors `(i, j)` to the end of both lists. */
  function Walk(L: seq<string>, R: seq<string>, i: nat, j: nat, lookahead: nat): seq<Edit>
    requires i <= |L| && j <= |R|
    decreases |L| - i + |R| - j
  {
    if i == |L| && j == |R| then []
    else
      var m := Step(L, R, i, j, lookahead);
      m.edits + Walk(L, R, m.ni, m.nj, lookahead)
  }

  /** `compare_with_resync(words_left, words_right, lookahead)`. */
  method CompareWithResync(L: seq<string>, R: seq<string>, lookahead: nat) returns (d: seq<Edit>)
    ensures d == Walk(L, R, 0, 0, lookahead)
    ensures Ordered(d, 0, |L|, 0, |R|)
  {
    d := [];
    var i: nat, j: nat := 0, 0;
    while i < |L| || j < |R|
      invariant i <= |L| && j <= |R|
      invariant d + Walk(L, R, i, j, lookahead) == Walk(L, R, 0, 0, lookahead)
      decreases |L| - i + |R| - j
    {
      var m := Step(L, R, i, j, lookahead);
      d := d + m.edits;
      i, j := m.ni, m.nj;
    }
    assert d + [] == d;
    WalkOrdered(L, R, 0, 0, lookahead);
  }

  // ---------------------------------------------------------------------
  // Shape and order of the output
  // ---------------------------------------------------------------------

  lemma {:induction false} LeftIndicesAppend(a: seq<Edit>, b: seq<Edit>)
    ensures LeftIndices(a + b) == LeftIndices(a) + LeftIndices(b)
  {
    if a != [] {
      assert (a + b)[1..] == a[1..] + b;
      LeftIndicesAppend(a[1..], b);
    } else {
      assert a + b == b;
    }
  }

  lemma {:induction false} RightIndicesAppend(a: seq<Edit>, b: seq<Edit>)
    ensures RightIndices(a + b) == RightIndices(a) + RightIndices(b)
  {
    if a != [] {
      assert (a + b)[1..] == a[1..] + b;
      RightIndicesAppend(a[1..], b);
    } else {
      assert a + b == b;
    }
  }

  /** Each side's indices in `d` are strictly increasing and lie in `[lo1, hi1)` and `[lo2, hi2)`. */
  predicate Ordered(d: seq<Edit>, lo1: nat, hi1: nat, lo2: nat, hi2: nat) {
    && Increasing(LeftIndices(d)) && Within(LeftIndices(d), lo1, hi1)
    && Increasing(RightIndices(d)) && Within(RightIndices(d), lo2, hi2)
  }

  lemma {:induction false} DeletesOrdered(a: nat, b: nat, j: nat)
    requires a <= b
    decreases b - a
    ensures Ordered(Deletes(a, b), a, b, j, j)
    ensures LeftIndices(Deletes(a, b)) == [] <==> a == b
  {
    if a < b {
      assert Deletes(a, b)[1..] == Deletes(a + 1, b);
      DeletesOrdered(a + 1, b, j);
      assert LeftIndices(Deletes(a, b)) == [a] + LeftIndices(Deletes(a + 1, b));
      assert RightIndices(Deletes(a, b)) == RightIndices(Deletes(a + 1, b));
      IncreasingAppend([a], LeftIndices(Deletes(a + 1, b)), a, a + 1, b);
    }
  }

  lemma {:induction false} InsertsOrdered(i: nat, a: nat, b: nat)
    requires a <= b
    decreases b - a
    ensures Ordered(Inserts(a, b), i, i, a, b)
  {
    if a < b {
      assert Inserts(a, b)[1..] == Inserts(a + 1, b);
      InsertsOrdered(i, a + 1, b);
      assert RightIndices(Inserts(a, b)) == [a] + RightIndices(Inserts(a + 1, b));
      assert LeftIndices(Inserts(a, b)) == LeftIndices(Inserts(a + 1, b));
      IncreasingAppend([a], RightIndices(Inserts(a + 1, b)), a, a + 1, b);
    }
  }

  lemma OrderedAppend(d: seq<Edit>, e: seq<Edit>, lo1: nat, mid1: nat, hi1: nat, lo2: nat, mid2: nat, hi2: nat)
    requires lo1 <= mid1 <= hi1 && lo2 <= mid2 <= hi2
    requires Ordered(d, lo1, mid1, lo2, mid2) && Ordered(e, mid1, hi1, mid2, hi2)
    ensures Ordered(d + e, lo1, hi1, lo2, hi2)
  {
    LeftIndicesAppend(d, e);
    RightIndicesAppend(d, e);
    IncreasingAppend(LeftIndices(d), LeftIndices(e), lo1, mid1, hi1);
    IncreasingAppend(RightIndices(d), RightIndices(e), lo2, mid2, hi2);
  }

  /** Deleting `a` left tokens and then inserting `b` right ones mentions each index once, in order. */
  lemma DeletesThenInsertsOrdered(i: nat, a: nat, j: nat, b: nat)
    ensures Ordered(Deletes(i, i + a) + Inserts(j, j + b), i, i + a, j, j + b)
  {
    var d := Deletes(i, i + a);
    var e := Inserts(j, j + b);
    assert Ordered(d, i, i + a, j, j) by { DeletesOrdered(i, i + a, j); }
    assert Ordered(e, i + a, i + a, j, j + b) by { InsertsOrdered(i + a, j, j + b); }
    OrderedAppend(d, e, i, i + a, i + a, j, j, j + b);
  }

  /** The indices a resynchronisation mentions lie between the old and the new cursor, in order. */
  lemma ResyncOrdered(L: seq<string>, R: seq<string>, i: nat, j: nat, lookahead: nat)
    requires i < |L| && j < |R|
    ensures var m := Resync(L, R, i, j, lookahead);
      Ordered(m.edits, i, m.ni, j, m.nj)
  {
    var t1 := Reach(lookahead, |L|, i);
    var t2 := Reach(lookahead, |R|, j);
    var m := Resync(L, R, i, j, lookahead);
    var left := FirstLeftHit(L, R, i, j, t1, 1);
    var right := FirstRightHit(L, R, i, j, t2, 1);
    var joint := JointScan(L, R, i, j, t1, t2, 1, 1, None);
    if left.Some? {
      assert m == Move(Deletes(i, i + left.value), i + left.value, j);
      DeletesOrdered(i, i + left.value, j);
    } else if right.Some? {
      assert m == Move(Inserts(j, j + right.value), i, j + right.value);
      InsertsOrdered(i, j, j + right.value);
    } else if joint.Some? {
      var p := joint.value;
      assert m == Move(Deletes(i, i + p.0) + Inserts(j, j + p.1), i + p.0, j + p.1);
      DeletesThenInsertsOrdered(i, p.0, j, p.1);
    } else {
      assert m.edits == [Replace(i, j)];
      assert [Replace(i, j)][1..] == [];
    }
  }

  /** The indices one step mentions lie between the old and the new cursor, in order. */
  lemma StepOrdered(L: seq<string>, R: seq<string>, i: nat, j: nat, lookahead: nat)
    requires i <= |L| && j <= |R| && (i < |L| || j < |R|)
    ensures var m := Step(L, R, i, j, lookahead);
      Ordered(m.edits, i, m.ni, j, m.nj)
  {
    if j == |R| {
      assert [Delete(i)][1..] == [];
    } else if i == |L| {
      assert [Insert(j)][1..] == [];
    } else if L[i] != R[j] && Merge(L, R, i, j).None? {
      ResyncOrdered(L, R, i, j, lookahead);
    }
  }

  lemma IncreasingAppend(a: seq<nat>, b: seq<nat>, lo: nat, mid: nat, hi: nat)
    requires lo <= mid <= hi
    requires Increasing(a) && Within(a, lo, mid)
    requires Increasing(b) && Within(b, mid, hi)
    ensures Increasing(a + b) && Within(a + b, lo, hi)
  {
    forall x | 0 <= x < |a + b|
      ensures lo <= (a + b)[x] < hi
    {
      if x >= |a| {
        assert (a + b)[x] == b[x - |a|];
      } else {
        assert (a + b)[x] == a[x];
      }
    }
    forall x, y | 0 <= x < y < |a + b|
      ensures (a + b)[x] < (a + b)[y]
    {
      if y < |a| {
      } else if x >= |a| {
        assert (a + b)[x] == b[x - |a|] && (a + b)[y] == b[y - |a|];
      } else {
        assert (a + b)[x] == a[x] && (a + b)[y] == b[y - |a|];
      }
    }
  }

  /** Left indices of the output are strictly increasing and in range, and so
      are right indices: every token is reported at most once, in order. */
  lemma {:induction false} WalkOrdered(L: seq<string>, R: seq<string>, i: nat, j: nat, lookahead: nat)
    requires i <= |L| && j <= |R|
    decreases |L| - i + |R| - j
    ensures Ordered(Walk(L, R, i, j, lookahead), i, |L|, j, |R|)
  {
    if !(i == |L| && j == |R|) {
      var m := Step(L, R, i, j, lookahead);
      StepOrdered(L, R, i, j, lookahead);
      WalkOrdered(L, R, m.ni, m.nj, lookahead);
      OrderedAppend(m.edits, Walk(L, R, m.ni, m.nj, lookahead), i, m.ni, |L|, j, m.nj, |R|);
    }
  }

  /** Once the right side is exhausted, the rest of the left side is deleted one index at a time. */
  lemma {:induction false} DrainLeft(L: seq<string>, R: seq<string>, i: nat, lookahead: nat)
    requires i <= |L|
    decreases |L| - i
    ensures Walk(L, R, i, |R|, lookahead) == Deletes(i, |L|)
  {
    if i < |L| {
      DrainLeft(L, R, i + 1, lookahead);
      assert Deletes(i, |L|) == [Delete(i)] + Deletes(i + 1, |L|);
    }
  }

  /** Once the left side is exhausted, the rest of the right side is inserted one index at a time. */
  lemma {:induction false} DrainRight(L: seq<string>, R: seq<string>, j: nat, lookahead: nat)
    requires j <= |R|
    decreases |R| - j
    ensures Walk(L, R, |L|, j, lookahead) == Inserts(j, |R|)
  {
    if j < |R| {
      DrainRight(L, R, j + 1, lookahead);
      assert Inserts(j, |R|) == [Insert(j)] + Inserts(j + 1, |R|);
    }
  }

  // ---------------------------------------------------------------------
  // Agreement: equal stretches emit nothing, silence means equal text
  // ---------------------------------------------------------------------

  /** Equal heads advance both cursors and record nothing. */
  lemma WalkEqualHead(L: seq<string>, R: seq<string>, i: nat, j: nat, lookahead: nat)
    requires i < |L| && j < |R| && L[i] == R[j]
    ensures Walk(L, R, i, j, lookahead) == Walk(L, R, i + 1, j + 1, lookahead)
  {
    assert Step(L, R, i, j, lookahead) == Move([], i + 1, j + 1);
  }

  /** Equal remainders produce no records: the heads always agree and only advance. */
  lemma {:induction false} WalkEqualTails(L: seq<string>, R: seq<string>, i: nat, j: nat, lookahead: nat)
    requires i <= |L| && j <= |R|
    requires L[i..] == R[j..]
    decreases |L| - i
    ensures Walk(L, R, i, j, lookahead) == []
  {
    if i < |L| {
      assert L[i] == L[i..][0] == R[j..][0] == R[j];
      assert L[i + 1..] == L[i..][1..];
      assert R[j + 1..] == R[j..][1..];
      WalkEqualHead(L, R, i, j, lookahead);
      WalkEqualTails(L, R, i + 1, j + 1, lookahead);
    } else {
      assert |R[j..]| == 0;
    }
  }

  /** `compare_with_resync(W, W)` is empty. */
  lemma AlignSelf(W: seq<string>, lookahead: nat)
    ensures Walk(W, W, 0, 0, lookahead) == []
  {
    WalkEqualTails(W, W, 0, 0, lookahead);
  }

  lemma RunHead(L: seq<string>, R: seq<string>, i: nat, j: nat, e: nat, f: nat)
    requires i < e <= |L| && j < f <= |R| && e - i == f - j
    requires L[i..e] == R[j..f]
    ensures L[i] == R[j] && L[i + 1..e] == R[j + 1..f]
  {
    assert L[i] == L[i..e][0] == R[j..f][0] == R[j];
    assert L[i + 1..e] == L[i..e][1..];
    assert R[j + 1..f] == R[j..f][1..];
  }

  /** A shared stretch of tokens, `L[i..e]` equal to `R[j..f]`, is crossed without records. */
  lemma {:induction false} WalkEqualRun(L: seq<string>, R: seq<string>, i: nat, j: nat, e: nat, f: nat, lookahead: nat)
    requires i <= e <= |L| && j <= f <= |R| && e - i == f - j
    requires L[i..e] == R[j..f]
    decreases e - i
    ensures Walk(L, R, i, j, lookahead) == Walk(L, R, e, f, lookahead)
  {
    if i < e {
      RunHead(L, R, i, j, e, f);
      WalkEqualRun(L, R, i + 1, j + 1, e, f, lookahead);
      WalkEqualHead(L, R, i, j, lookahead);
    }
  }

  /** A step that records nothing consumed tokens that glue to the same text on both sides. */
  lemma StepSilentAgrees(L: seq<string>, R: seq<string>, i: nat, j: nat, lookahead: nat)
    requires i <= |L| && j <= |R| && (i < |L| || j < |R|)
    ensures var m := Step(L, R, i, j, lookahead);
      m.edits == [] ==> Flatten(L[i..m.ni]) == Flatten(R[j..m.nj])
  {
    var m := Step(L, R, i, j, lookahead);
    if m.edits == [] {
      assert i < |L| && j < |R|;
      assert L[i..i + 1] == [L[i]] && R[j..j + 1] == [R[j]];
      FlattenSingle(L[i]);
      FlattenSingle(R[j]);
    }
  }

  /** An empty result means the two token lists spell the same text once
      separators are dropped: the aligner never hides a real difference. */
  lemma {:induction false} SilentWalkAgrees(L: seq<string>, R: seq<string>, i: nat, j: nat, lookahead: nat)
    requires i <= |L| && j <= |R|
    requires Walk(L, R, i, j, lookahead) == []
    decreases |L| - i + |R| - j
    ensures Flatten(L[i..]) == Flatten(R[j..])
  {
    if i == |L| && j == |R| {
      assert L[i..] == [] && R[j..] == [];
    } else {
      var m := Step(L, R, i, j, lookahead);
      assert m.edits + Walk(L, R, m.ni, m.nj, lookahead) == [];
      assert m.edits == [];
      StepSilentAgrees(L, R, i, j, lookahead);
      SilentWalkAgrees(L, R, m.ni, m.nj, lookahead);
      assert L[i..] == L[i..m.ni] + L[m.ni..];
      assert R[j..] == R[j..m.nj] + R[m.nj..];
      FlattenAppend(L[i..m.ni], L[m.ni..]);
      FlattenAppend(R[j..m.nj], R[m.nj..]);
    }
  }

  // ---------------------------------------------------------------------
  // The order of attempts after a mismatch
  // ---------------------------------------------------------------------

  /** Heads present on both sides and different. */
  predicate Mismatch(L: seq<string>, R: seq<string>, i: nat, j: nat) {
    i < |L| && j < |R| && L[i] != R[j]
  }

  /** The left side's tokens `i .. i+k` glue to the right's current token, the left one being shorter. */
  predicate LeftMerges(L: seq<string>, R: seq<string>, i: nat, j: nat, k: nat)
    requires i < |L| && j < |R|
  {
    |L[i]| < |R[j]| && 1 <= k <= Reach(MaxMerged - 1, |L|, i) && GluesTo(L, i, k, R[j])
  }

  /** The right side's tokens `j .. j+k` glue to the left's current token, the right one being shorter. */
  predicate RightMerges(L: seq<string>, R: seq<string>, i: nat, j: nat, k: nat)
    requires i < |L| && j < |R|
  {
    |R[j]| < |L[i]| && 1 <= k <= Reach(MaxMerged - 1, |R|, j) && GluesTo(R, j, k, L[i])
  }

  ghost predicate NoMerge(L: seq<string>, R: seq<string>, i: nat, j: nat)
    requires i < |L| && j < |R|
  {
    forall k: nat :: !LeftMerges(L, R, i, j, k) && !RightMerges(L, R, i, j, k)
  }

  /** A step after a mismatch that records nothing is a merge: the current
      tokens differ in length, 2 to 5 tokens are consumed on the shorter side
      and one on the other, using the fewest tokens that glue up. */
  lemma MergeShape(L: seq<string>, R: seq<string>, i: nat, j: nat, lookahead: nat)
    requires Mismatch(L, R, i, j)
    ensures var m := Step(L, R, i, j, lookahead);
      m.edits == [] ==>
        && |L[i]| != |R[j]|
        && ((m.nj == j + 1 && 2 <= m.ni - i <= MaxMerged && LeftMerges(L, R, i, j, m.ni - i - 1)
             && forall k | 1 <= k < m.ni - i - 1 :: !LeftMerges(L, R, i, j, k))
         || (m.ni == i + 1 && 2 <= m.nj - j <= MaxMerged && RightMerges(L, R, i, j, m.nj - j - 1)
             && forall k | 1 <= k < m.nj - j - 1 :: !RightMerges(L, R, i, j, k)))
  {
  }

  /** When the left current token is shorter and some 2 to 5 left tokens glue
      to the right one, the fewest such tokens are consumed and nothing is recorded. */
  lemma LeftMergeWins(L: seq<string>, R: seq<string>, i: nat, j: nat, k: nat, lookahead: nat)
    requires Mismatch(L, R, i, j)
    requires LeftMerges(L, R, i, j, k)
    requires forall k' | 1 <= k' < k :: !GluesTo(L, i, k', R[j])
    ensures Step(L, R, i, j, lookahead) == Move([], i + k + 1, j + 1)
  {
  }

  /** The mirror image: the right current token is shorter and glues up. */
  lemma RightMergeWins(L: seq<string>, R: seq<string>, i: nat, j: nat, k: nat, lookahead: nat)
    requires Mismatch(L, R, i, j)
    requires RightMerges(L, R, i, j, k)
    requires forall k' | 1 <= k' < k :: !GluesTo(R, j, k', L[i])
    ensures Step(L, R, i, j, lookahead) == Move([], i + 1, j + k + 1)
  {
  }

  /** First priority: the nearest left token (within the lookahead) equal to
      the right current token; the left tokens before it are deleted. */
  lemma SkipLeftWins(L: seq<string>, R: seq<string>, i: nat, j: nat, k: nat, lookahead: nat)
    requires Mismatch(L, R, i, j) && NoMerge(L, R, i, j)
    requires 1 <= k <= lookahead && Hit(L, R, i, j, k, 0)
    requires forall k' | 1 <= k' < k :: !Hit(L, R, i, j, k', 0)
    ensures Step(L, R, i, j, lookahead) == Move(Deletes(i, i + k), i + k, j)
  {
    MergeSpec(L, R, i, j);
    var r := FirstLeftHit(L, R, i, j, Reach(lookahead, |L|, i), 1);
    assert k <= Reach(lookahead, |L|, i);
    assert r == Some(k);
  }

  /** Second priority: with no left token ahead matching, the nearest right
      token equal to the left current token; the right tokens before it are inserted. */
  lemma SkipRightWins(L: seq<string>, R: seq<string>, i: nat, j: nat, k: nat, lookahead: nat)
    requires Mismatch(L, R, i, j) && NoMerge(L, R, i, j)
    requires forall x | 1 <= x <= lookahead :: !Hit(L, R, i, j, x, 0)
    requires 1 <= k <= lookahead && Hit(L, R, i, j, 0, k)
    requires forall k' | 1 <= k' < k :: !Hit(L, R, i, j, 0, k')
    ensures Step(L, R, i, j, lookahead) == Move(Inserts(j, j + k), i, j + k)
  {
    MergeSpec(L, R, i, j);
    assert FirstLeftHit(L, R, i, j, Reach(lookahead, |L|, i), 1).None?;
    var r := FirstRightHit(L, R, i, j, Reach(lookahead, |R|, j), 1);
    assert k <= Reach(lookahead, |R|, j);
    assert r == Some(k);
  }

  /** Third priority: with no single-sided match, the common pair `(a, b)`
      nearest in total distance, ties going to fewer left skips; the left
      tokens before it are deleted and then the right ones inserted. */
  lemma SkipBothWins(L: seq<string>, R: seq<string>, i: nat, j: nat, a: nat, b: nat, lookahead: nat)
    requires Mismatch(L, R, i, j) && NoMerge(L, R, i, j)
    requires forall x | 1 <= x <= lookahead :: !Hit(L, R, i, j, x, 0)
    requires forall y | 1 <= y <= lookahead :: !Hit(L, R, i, j, 0, y)
    requires 1 <= a <= lookahead && 1 <= b <= lookahead && Hit(L, R, i, j, a, b)
    requires forall x, y | 1 <= x <= lookahead && 1 <= y <= lookahead && Hit(L, R, i, j, x, y) :: NoWorse(a, b, x, y)
    ensures Step(L, R, i, j, lookahead) == Move(Deletes(i, i + a) + Inserts(j, j + b), i + a, j + b)
  {
    MergeSpec(L, R, i, j);
    var t1 := Reach(lookahead, |L|, i);
    var t2 := Reach(lookahead, |R|, j);
    assert FirstLeftHit(L, R, i, j, t1, 1).None?;
    assert FirstRightHit(L, R, i, j, t2, 1).None?;
    JointScanFindsNearest(L, R, i, j, t1, t2, 1, 1, None);
    var p := JointScan(L, R, i, j, t1, t2, 1, 1, None);
    assert a <= t1 && b <= t2;
    assert p == Some((a, b));
  }

  /** Last resort: with no common token anywhere in the window, one replacement. */
  lemma ReplaceFallback(L: seq<string>, R: seq<string>, i: nat, j: nat, lookahead: nat)
    requires Mismatch(L, R, i, j) && NoMerge(L, R, i, j)
    requires forall x, y | 0 <= x <= lookahead && 0 <= y <= lookahead && x + y > 0 :: !Hit(L, R, i, j, x, y)
    ensures Step(L, R, i, j, lookahead) == Move([Replace(i, j)], i + 1, j + 1)
  {
    MergeSpec(L, R, i, j);
    var t1 := Reach(lookahead, |L|, i);
    var t2 := Reach(lookahead, |R|, j);
    assert FirstLeftHit(L, R, i, j, t1, 1).None?;
    assert FirstRightHit(L, R, i, j, t2, 1).None?;
    JointScanFindsNearest(L, R, i, j, t1, t2, 1, 1, None);
    assert JointScan(L, R, i, j, t1, t2, 1, 1, None).None?;
  }

  // ---------------------------------------------------------------------
  // A single inserted word
  // ---------------------------------------------------------------------

  /** Inserting one word `w` at position `p` of `W` is reported as exactly that
      insertion, provided the word is not mistaken for a resync point or a
      merge: either it is appended at the end, or it differs from `W[p]`, does
      not reappear in the next `lookahead` tokens of `W`, and no merge-check
      fires at `p`. */
  lemma SingleInsertion(W: seq<string>, p: nat, w: string, lookahead: nat)
    requires p <= |W| && 1 <= lookahead
    requires p < |W| ==> w != W[p]
    requires forall q | p < q <= p + lookahead && q < |W| :: W[q] != w
    requires p < |W| ==> NoMerge(W, W[..p] + [w] + W[p..], p, p)
    ensures Walk(W, W[..p] + [w] + W[p..], 0, 0, lookahead) == [Insert(p)]
  {
    var R := W[..p] + [w] + W[p..];
    assert W[0..p] == R[0..p];
    WalkEqualRun(W, R, 0, 0, p, p, lookahead);
    assert R[p + 1..] == W[p..];
    WalkEqualTails(W, R, p, p + 1, lookahead);
    if p == |W| {
      assert Step(W, R, p, p, lookahead) == Move([Insert(p)], p, p + 1);
    } else {
      assert R[p] == w && R[p + 1] == W[p];
      forall x | 1 <= x <= lookahead
        ensures !Hit(W, R, p, p, x, 0)
      {
        if p + x < |W| {
          assert W[p + x] != w;
        }
      }
      SkipRightWins(W, R, p, p, 1, lookahead);
      assert Inserts(p, p + 1) == [Insert(p)];
    }
    assert [Insert(p)] + [] == [Insert(p)];
  }
}
