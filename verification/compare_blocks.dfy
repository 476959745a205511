/** `compare_blocks` and `get_diff_count` of the insurance-document block
    comparator: each block of A takes its best match in B unless that block
    of B is already taken, unmatched blocks of A are deleted, unclaimed
    blocks of B are added, and every decision leaves a highlight on the
    page of the block it concerns. */
module BlockCompare {
  import opened Basics
  import opened TextComparator

  /** One highlight: rectangle, colour and the detail shown for it. */
  datatype Highlight = Highlight(box: BBox, color: Color, detail: string)

  /** A matched pair whose words differ. */
  datatype Modification = Modification(indexA: nat, indexB: nat, blockA: Block, blockB: Block, wordDiff: WordDiff)
  /** A block of A without a match. */
  datatype Removal = Removal(indexA: nat, blockA: Block)
  /** A block of B that no block of A claimed. */
  datatype Addition = Addition(indexB: nat, blockB: Block)

  /** The result dictionary: the three lists, the A-to-B map and the
      highlights of each document by page. */
  datatype Results = Results(modified: seq<Modification>, deleted: seq<Removal>, added: seq<Addition>,
                             syncMap: map<nat, nat>,
                             marksA: map<nat, seq<Highlight>>, marksB: map<nat, seq<Highlight>>)

  /** The results built so far together with `matched_b_indices`. */
  datatype Progress = Progress(res: Results, claimed: set<nat>)

  const NoResults: Results := Results([], [], [], map[], map[], map[])
  const Start: Progress := Progress(NoResults, {})

  const DeletedMarker: string := "[삭제됨] "
  const AddedMarker: string := "[추가됨] "

  /** A proposal for one block of A: the index of its best match in B and
      the word-level comparison with that block. */
  type Prop = Option<(nat, WordDiff)>

  // ---------------------------------------------------------------------
  // Highlights
  // ---------------------------------------------------------------------

  /** The red highlight of a deleted block, with its page. */
  function RedMark(d: Removal): (nat, Highlight) {
    (d.blockA.page, Highlight(d.blockA.box, Red, DeletedMarker + d.blockA.text))
  }

  /** The yellow highlights of a modified pair on A and on B. */
  function YellowMarkA(d: Modification): (nat, Highlight) {
    (d.blockA.page, Highlight(d.blockA.box, Yellow, FormatDiffDetail(d.wordDiff, SideA)))
  }

  function YellowMarkB(d: Modification): (nat, Highlight) {
    (d.blockB.page, Highlight(d.blockB.box, Yellow, FormatDiffDetail(d.wordDiff, SideB)))
  }

  /** The green highlight of an added block. */
  function GreenMark(d: Addition): (nat, Highlight) {
    (d.blockB.page, Highlight(d.blockB.box, Green, AddedMarker + d.blockB.text))
  }

  // ---------------------------------------------------------------------
  // The two loops
  // ---------------------------------------------------------------------

  /** What the loop over A does with block `i`: its best match and the
      word-level comparison with it, or nothing when there is no match. */
  function Proposal(A: seq<Block>, B: seq<Block>, i: nat, ratio: RatioFn, differ: DiffFn): (r: Prop)
    requires i < |A|
    ensures r.Some? ==> r.value.0 < |B|
    ensures r.None? <==> FindBestMatch(A[i], B, ratio).None?
    ensures r.Some? ==> r.value.0 == FindBestMatch(A[i], B, ratio).value.0
  {
    var best := FindBestMatch(A[i], B, ratio);
    if best.None? then None
    else Some((best.value.0, CompareWordLevel(A[i].text, B[best.value.0].text, differ)))
  }

  /** Every proposed match is a block of B. */
  predicate ValidProposals(B: seq<Block>, props: seq<Prop>) {
    forall k | 0 <= k < |props| :: props[k].Some? ==> props[k].value.0 < |B|
  }

  /** The proposals for every block of A. They do not depend on the loop's
      state: `find_best_match` searches all of B, and the word comparison
      is pure. */
  function Proposals(A: seq<Block>, B: seq<Block>, ratio: RatioFn, differ: DiffFn): (r: seq<Prop>)
    ensures |r| == |A| && ValidProposals(B, r)
    ensures forall k | 0 <= k < |A| :: r[k] == Proposal(A, B, k, ratio, differ)
  {
    seq(|A|, k requires 0 <= k < |A| => Proposal(A, B, k, ratio, differ))
  }

  /** Records a deleted block and its red highlight. */
  function Delete(res: Results, d: Removal): (r: Results)
    ensures r.(deleted := res.deleted, marksA := res.marksA) == res
    ensures r.deleted == res.deleted + [d]
  {
    var m := RedMark(d);
    res.(deleted := res.deleted + [d], marksA := AppendAt(res.marksA, m.0, m.1))
  }

  /** Records a modified pair and its two yellow highlights. */
  function Modify(res: Results, d: Modification): (r: Results)
    ensures r.(modified := res.modified, marksA := res.marksA, marksB := res.marksB) == res
    ensures r.modified == res.modified + [d]
  {
    var ma := YellowMarkA(d);
    var mb := YellowMarkB(d);
    res.(modified := res.modified + [d],
         marksA := AppendAt(res.marksA, ma.0, ma.1),
         marksB := AppendAt(res.marksB, mb.0, mb.1))
  }

  /** One iteration of the loop over A: a block without a match is deleted;
      a block whose match is already claimed is skipped; otherwise the pair
      is recorded, and reported as modified when its words differ. */
  function MatchStep(A: seq<Block>, B: seq<Block>, i: nat, st: Progress, prop: Prop): Progress
    requires i < |A|
    requires prop.Some? ==> prop.value.0 < |B|
  {
    if prop.None? then Progress(Delete(st.res, Removal(i, A[i])), st.claimed)
    else
      var (j, wd) := prop.value;
      if j in st.claimed then st
      else
        var res := st.res.(syncMap := st.res.syncMap[i := j]);
        Progress(if wd.Modified? then Modify(res, Modification(i, j, A[i], B[j], wd)) else res,
                 st.claimed + {j})
  }

  /** The loop over A from block `i` on, starting in state `st`. */
  function MatchFrom(A: seq<Block>, B: seq<Block>, props: seq<Prop>, i: nat, st: Progress): Progress
    requires |props| == |A| && ValidProposals(B, props) && i <= |A|
    decreases |A| - i
  {
    if i == |A| then st
    else MatchFrom(A, B, props, i + 1, MatchStep(A, B, i, st, props[i]))
  }

  /** One iteration of the loop over B: an unclaimed block is added. */
  function AddStep(B: seq<Block>, j: nat, st: Progress): Progress
    requires j < |B|
  {
    if j in st.claimed then st
    else
      var d := Addition(j, B[j]);
      var m := GreenMark(d);
      Progress(st.res.(added := st.res.added + [d], marksB := AppendAt(st.res.marksB, m.0, m.1)), st.claimed)
  }

  /** The loop over B from block `j` on, starting in state `st`. */
  function AddFrom(B: seq<Block>, j: nat, st: Progress): Progress
    requires j <= |B|
    decreases |B| - j
  {
    if j == |B| then st else AddFrom(B, j + 1, AddStep(B, j, st))
  }

  /** The state after the loop over A. */
  function MatchAll(A: seq<Block>, B: seq<Block>, ratio: RatioFn, differ: DiffFn): Progress {
    MatchFrom(A, B, Proposals(A, B, ratio, differ), 0, Start)
  }

  /** `compare_blocks`. */
  function CompareBlocks(A: seq<Block>, B: seq<Block>, ratio: RatioFn, differ: DiffFn): Results {
    AddFrom(B, 0, MatchAll(A, B, ratio, differ)).res
  }

  // ---------------------------------------------------------------------
  // The claimed set keeps the map injective
  // ---------------------------------------------------------------------

  /** What the loop over A keeps true after `nA` blocks, for a B of `nB`
      blocks. */
  predicate Bookkeeping(nA: nat, nB: nat, p: Progress) {
    var m := p.res.syncMap;
    var ds := p.res.deleted;
    && p.claimed == m.Values && |p.claimed| == |m|
    && (forall a | a in m :: a < nA && m[a] < nB)
    && Injective(m)
    && (forall k | 0 <= k < |ds| :: ds[k].indexA < nA && ds[k].indexA !in m)
    && (forall k, l | 0 <= k < l < |ds| :: ds[k].indexA < ds[l].indexA)
    && |m| + |ds| <= nA
    && |p.res.modified| <= |m|
    && p.res.added == []
  }

  /** Adding a fresh key adds its value to the values. */
  lemma MapAdd(m: map<nat, nat>, k: nat, v: nat)
    requires k !in m
    ensures m[k := v].Values == m.Values + {v}
    ensures |m[k := v]| == |m| + 1
  {
    var m' := m[k := v];
    forall x ensures x in m'.Values <==> x in m.Values + {v} {
      if x in m.Values {
        var a :| a in m && m[a] == x;
        assert m'[a] == x;
      }
      if x in m'.Values {
        var a :| a in m' && m'[a] == x;
        if a != k { assert m[a] == x; }
      }
      if x == v { assert m'[k] == v; }
    }
    assert m'.Keys == m.Keys + {k};
  }

  lemma MatchStepBookkeeping(A: seq<Block>, B: seq<Block>, i: nat, n: nat, st: Progress, prop: Prop)
    requires i < |A| && n == i + 1 && (prop.Some? ==> prop.value.0 < |B|)
    requires Bookkeeping(i, |B|, st)
    ensures Bookkeeping(n, |B|, MatchStep(A, B, i, st, prop))
  {
    if prop.None? {
      BookkeepingDelete(i, n, |B|, st, Removal(i, A[i]));
    } else {
      var (j, wd) := prop.value;
      if j in st.claimed {
        BookkeepingSkip(i, n, |B|, st);
      } else {
        var res0 := st.res.(syncMap := st.res.syncMap[i := j]);
        var res := if wd.Modified? then Modify(res0, Modification(i, j, A[i], B[j], wd)) else res0;
        assert MatchStep(A, B, i, st, prop) == Progress(res, st.claimed + {j});
        BookkeepingMatch(i, n, |B|, st, j, res);
      }
    }
  }

  lemma BookkeepingSkip(i: nat, n: nat, nB: nat, st: Progress)
    requires n == i + 1 && Bookkeeping(i, nB, st)
    ensures Bookkeeping(n, nB, st)
  {
  }

  lemma BookkeepingDelete(i: nat, n: nat, nB: nat, st: Progress, d: Removal)
    requires n == i + 1 && d.indexA == i
    requires Bookkeeping(i, nB, st)
    ensures Bookkeeping(n, nB, Progress(Delete(st.res, d), st.claimed))
  {
    var res := Delete(st.res, d);
    assert res.syncMap == st.res.syncMap && res.modified == st.res.modified && res.added == [];
    assert res.deleted == st.res.deleted + [d];
  }

  lemma BookkeepingMatch(i: nat, n: nat, nB: nat, st: Progress, j: nat, res: Results)
    requires n == i + 1 && j < nB && j !in st.claimed
    requires Bookkeeping(i, nB, st)
    requires res.syncMap == st.res.syncMap[i := j] && res.deleted == st.res.deleted && res.added == []
    requires |res.modified| <= |st.res.modified| + 1
    ensures Bookkeeping(n, nB, Progress(res, st.claimed + {j}))
  {
    var m := st.res.syncMap;
    assert i !in m;
    MapAdd(m, i, j);
    assert |st.claimed + {j}| == |st.claimed| + 1;
  }

  lemma {:induction false} MatchFromBookkeeping(A: seq<Block>, B: seq<Block>, props: seq<Prop>, i: nat, st: Progress)
    requires |props| == |A| && ValidProposals(B, props) && i <= |A|
    requires Bookkeeping(i, |B|, st)
    ensures Bookkeeping(|A|, |B|, MatchFrom(A, B, props, i, st))
    decreases |A| - i
  {
    if i < |A| {
      var prop := props[i];
      assert prop.Some? ==> prop.value.0 < |B|;
      var st' := MatchStep(A, B, i, st, prop);
      assert Bookkeeping(i + 1, |B|, st') by { MatchStepBookkeeping(A, B, i, i + 1, st, prop); }
      MatchFromBookkeeping(A, B, props, i + 1, st');
    }
  }

  /** After the loop over A, the sync map is injective, never maps a
      deleted block, and the map and the deleted list together account for
      at most every block of A: a block whose best match was already
      claimed is in neither. */
  lemma MatchAllBookkeeping(A: seq<Block>, B: seq<Block>, props: seq<Prop>, p: Progress)
    requires |props| == |A| && ValidProposals(B, props) && p == MatchFrom(A, B, props, 0, Start)
    ensures Bookkeeping(|A|, |B|, p)
  {
    assert Bookkeeping(0, |B|, Start);
    MatchFromBookkeeping(A, B, props, 0, Start);
  }

  // ---------------------------------------------------------------------
  // The fate of each block of A
  // ---------------------------------------------------------------------

  /** The blocks of B proposed by the first `n` blocks of A, whether or not
      the proposal was taken. */
  function Proposed(props: seq<Prop>, n: nat): set<nat>
    requires n <= |props|
  {
    if n == 0 then {}
    else Proposed(props, n - 1) + (if props[n - 1].Some? then {props[n - 1].value.0} else {})
  }

  /** `Proposed` collects exactly the proposals of the blocks before `n`. */
  lemma {:induction false} ProposedMembers(props: seq<Prop>, n: nat, j: nat)
    requires n <= |props|
    ensures j in Proposed(props, n) <==> exists a | 0 <= a < n :: props[a].Some? && props[a].value.0 == j
  {
    if n > 0 {
      ProposedMembers(props, n - 1, j);
      if props[n - 1].Some? && props[n - 1].value.0 == j {
        assert 0 <= n - 1 < n && props[n - 1].Some? && props[n - 1].value.0 == j;
      }
      if exists a | 0 <= a < n :: props[a].Some? && props[a].value.0 == j {
        var a :| 0 <= a < n && props[a].Some? && props[a].value.0 == j;
        if a < n - 1 {
          assert exists e | 0 <= e < n - 1 :: props[e].Some? && props[e].value.0 == j;
        }
      }
    }
  }

  /** Block `a` of A keeps its match: it has one, and no earlier block of
      A proposed the same block of B. */
  predicate Wins(props: seq<Prop>, a: nat)
    requires a < |props|
  {
    props[a].Some? && props[a].value.0 !in Proposed(props, a)
  }

  /** The blocks among the first `n` of A that have no match, in order. */
  function DeletedRef(A: seq<Block>, props: seq<Prop>, n: nat): seq<Removal>
    requires |props| == |A| && n <= |A|
  {
    if n == 0 then []
    else DeletedRef(A, props, n - 1) + (if props[n - 1].None? then [Removal(n - 1, A[n - 1])] else [])
  }

  /** The winning pairs among the first `n` blocks of A whose words
      differ, in order. */
  function ModifiedRef(A: seq<Block>, B: seq<Block>, props: seq<Prop>, n: nat): seq<Modification>
    requires |props| == |A| && ValidProposals(B, props) && n <= |A|
  {
    if n == 0 then []
    else
      var rest := ModifiedRef(A, B, props, n - 1);
      var a := n - 1;
      if Wins(props, a) && props[a].value.1.Modified? then
        rest + [Modification(a, props[a].value.0, A[a], B[props[a].value.0], props[a].value.1)]
      else rest
  }

  /** Where the highlights of A come from after the loop over A: red for
      each deleted block, yellow for each modified pair. */
  function MarksOfA(res: Results): set<(nat, Highlight)> {
    Image(res.deleted, RedMark) + Image(res.modified, YellowMarkA)
  }

  /** Where the highlights of B come from: yellow for each modified pair,
      green for each added block. */
  function MarksOfB(res: Results): set<(nat, Highlight)> {
    Image(res.modified, YellowMarkB) + Image(res.added, GreenMark)
  }

  /** The claimed set and the sync map after the first `i` blocks of A:
      the claimed blocks are all proposals so far, and exactly the winners
      are mapped, each to its own proposal. */
  ghost predicate MapFate(props: seq<Prop>, i: nat, claimed: set<nat>, m: map<nat, nat>)
    requires i <= |props|
  {
    && claimed == Proposed(props, i)
    && (forall a | a in m :: a < i && Wins(props, a) && m[a] == props[a].value.0)
    && (forall a | 0 <= a < i && Wins(props, a) :: a in m)
  }

  /** The deleted and modified lists after the first `i` blocks of A. */
  predicate ListFate(A: seq<Block>, B: seq<Block>, props: seq<Prop>, i: nat, res: Results)
    requires |props| == |A| && ValidProposals(B, props) && i <= |A|
  {
    res.deleted == DeletedRef(A, props, i) && res.modified == ModifiedRef(A, B, props, i) && res.added == []
  }

  /** Every highlight comes from a recorded decision, and every recorded
      decision left its highlight. */
  ghost predicate MarksFate(res: Results) {
    MarksHold(res.marksA, MarksOfA(res)) && MarksHold(res.marksB, MarksOfB(res))
  }

  /** What the loop over A keeps true after its first `i` blocks. */
  ghost predicate FateInv(A: seq<Block>, B: seq<Block>, props: seq<Prop>, i: nat, st: Progress)
    requires |props| == |A| && ValidProposals(B, props) && i <= |A|
  {
    MapFate(props, i, st.claimed, st.res.syncMap) && ListFate(A, B, props, i, st.res) && MarksFate(st.res)
  }

  lemma MapFateKeep(props: seq<Prop>, i: nat, n: nat, claimed: set<nat>, m: map<nat, nat>)
    requires i < |props| && n == i + 1 && MapFate(props, i, claimed, m)
    requires props[i].Some? ==> props[i].value.0 in claimed
    ensures MapFate(props, n, claimed, m) && !Wins(props, i)
  {
    assert Proposed(props, n) == Proposed(props, i);
  }

  lemma MapFateAdd(props: seq<Prop>, i: nat, n: nat, claimed: set<nat>, m: map<nat, nat>)
    requires i < |props| && n == i + 1 && MapFate(props, i, claimed, m)
    requires props[i].Some? && props[i].value.0 !in claimed
    ensures MapFate(props, n, claimed + {props[i].value.0}, m[i := props[i].value.0]) && Wins(props, i)
  {
    assert Proposed(props, n) == Proposed(props, i) + {props[i].value.0};
  }

  lemma ListFateKeep(A: seq<Block>, B: seq<Block>, props: seq<Prop>, i: nat, n: nat, res: Results, res': Results)
    requires |props| == |A| && ValidProposals(B, props) && i < |A| && n == i + 1
    requires ListFate(A, B, props, i, res) && props[i].Some?
    requires !(Wins(props, i) && props[i].value.1.Modified?)
    requires res'.deleted == res.deleted && res'.modified == res.modified && res'.added == res.added
    ensures ListFate(A, B, props, n, res')
  {
    assert DeletedRef(A, props, n) == DeletedRef(A, props, i);
    assert ModifiedRef(A, B, props, n) == ModifiedRef(A, B, props, i);
  }

  lemma ListFateDelete(A: seq<Block>, B: seq<Block>, props: seq<Prop>, i: nat, n: nat, res: Results, res': Results)
    requires |props| == |A| && ValidProposals(B, props) && i < |A| && n == i + 1
    requires ListFate(A, B, props, i, res) && props[i].None?
    requires res'.deleted == res.deleted + [Removal(i, A[i])] && res'.modified == res.modified && res'.added == res.added
    ensures ListFate(A, B, props, n, res')
  {
    assert DeletedRef(A, props, n) == DeletedRef(A, props, i) + [Removal(i, A[i])];
    assert ModifiedRef(A, B, props, n) == ModifiedRef(A, B, props, i);
  }

  lemma ListFateChange(A: seq<Block>, B: seq<Block>, props: seq<Prop>, i: nat, n: nat, res: Results, res': Results, d: Modification)
    requires |props| == |A| && ValidProposals(B, props) && i < |A| && n == i + 1
    requires ListFate(A, B, props, i, res) && Wins(props, i) && props[i].value.1.Modified?
    requires d == Modification(i, props[i].value.0, A[i], B[props[i].value.0], props[i].value.1)
    requires res'.deleted == res.deleted && res'.modified == res.modified + [d] && res'.added == res.added
    ensures ListFate(A, B, props, n, res')
  {
    assert DeletedRef(A, props, n) == DeletedRef(A, props, i);
    assert ModifiedRef(A, B, props, n) == ModifiedRef(A, B, props, i) + [d];
  }

  lemma MarksFateDelete(res: Results, d: Removal)
    requires MarksFate(res)
    ensures MarksFate(Delete(res, d))
  {
    var r := Delete(res, d);
    assert r.modified == res.modified && r.added == res.added && r.marksB == res.marksB;
    assert MarksOfA(r) == MarksOfA(res) + {RedMark(d)} by {
      ImageSnoc(res.deleted, d, RedMark);
    }
    MarksAppend(res.marksA, MarksOfA(res), RedMark(d).0, RedMark(d).1);
  }

  lemma MarksFateModify(res: Results, d: Modification)
    requires MarksFate(res)
    ensures MarksFate(Modify(res, d))
  {
    var r := Modify(res, d);
    assert r.deleted == res.deleted && r.added == res.added;
    assert MarksOfA(r) == MarksOfA(res) + {YellowMarkA(d)} by {
      ImageSnoc(res.modified, d, YellowMarkA);
    }
    assert MarksOfB(r) == MarksOfB(res) + {YellowMarkB(d)} by {
      ImageSnoc(res.modified, d, YellowMarkB);
    }
    MarksAppend(res.marksA, MarksOfA(res), YellowMarkA(d).0, YellowMarkA(d).1);
    MarksAppend(res.marksB, MarksOfB(res), YellowMarkB(d).0, YellowMarkB(d).1);
  }

  lemma FateStep(A: seq<Block>, B: seq<Block>, props: seq<Prop>, i: nat, n: nat, st: Progress)
    requires |props| == |A| && ValidProposals(B, props) && i < |A| && n == i + 1
    requires FateInv(A, B, props, i, st)
    ensures FateInv(A, B, props, n, MatchStep(A, B, i, st, props[i]))
  {
    var prop := props[i];
    assert prop.Some? ==> prop.value.0 < |B|;
    var m := st.res.syncMap;
    if prop.None? {
      var res := Delete(st.res, Removal(i, A[i]));
      assert MapFate(props, n, st.claimed, res.syncMap) by { MapFateKeep(props, i, n, st.claimed, m); }
      assert ListFate(A, B, props, n, res) by { ListFateDelete(A, B, props, i, n, st.res, res); }
      assert MarksFate(res) by { MarksFateDelete(st.res, Removal(i, A[i])); }
      assert MatchStep(A, B, i, st, prop) == Progress(res, st.claimed);
    } else {
      var (j, wd) := prop.value;
      if j in st.claimed {
        assert MapFate(props, n, st.claimed, m) && !Wins(props, i) by { MapFateKeep(props, i, n, st.claimed, m); }
        assert ListFate(A, B, props, n, st.res) by { ListFateKeep(A, B, props, i, n, st.res, st.res); }
      } else {
        var res0 := st.res.(syncMap := m[i := j]);
        assert MapFate(props, n, st.claimed + {j}, res0.syncMap) && Wins(props, i) by {
          MapFateAdd(props, i, n, st.claimed, m);
        }
        if wd.Modified? {
          var d := Modification(i, j, A[i], B[j], wd);
          var res := Modify(res0, d);
          assert ListFate(A, B, props, n, res) by { ListFateChange(A, B, props, i, n, st.res, res, d); }
          assert MarksFate(res) by { MarksFateModify(res0, d); }
          assert MatchStep(A, B, i, st, prop) == Progress(res, st.claimed + {j});
        } else {
          assert ListFate(A, B, props, n, res0) by { ListFateKeep(A, B, props, i, n, st.res, res0); }
          assert MatchStep(A, B, i, st, prop) == Progress(res0, st.claimed + {j});
        }
      }
    }
  }

  lemma {:induction false} MatchFromFate(A: seq<Block>, B: seq<Block>, props: seq<Prop>, i: nat, st: Progress)
    requires |props| == |A| && ValidProposals(B, props) && i <= |A|
    requires FateInv(A, B, props, i, st)
    ensures FateInv(A, B, props, |A|, MatchFrom(A, B, props, i, st))
    decreases |A| - i
  {
    if i < |A| {
      var st' := MatchStep(A, B, i, st, props[i]);
      var last := MatchFrom(A, B, props, i + 1, st');
      assert MatchFrom(A, B, props, i, st) == last;
      assert FateInv(A, B, props, |A|, last) by {
        FateStep(A, B, props, i, i + 1, st);
        MatchFromFate(A, B, props, i + 1, st');
      }
    }
  }

  // ---------------------------------------------------------------------
  // The loop over B
  // ---------------------------------------------------------------------

  /** The blocks among the first `n` of B outside `claimed`, in order. */
  function AddedRef(B: seq<Block>, claimed: set<nat>, n: nat): seq<Addition>
    requires n <= |B|
  {
    if n == 0 then []
    else AddedRef(B, claimed, n - 1) + (if n - 1 !in claimed then [Addition(n - 1, B[n - 1])] else [])
  }

  /** What the loop over B keeps true after its first `j` blocks, starting
      from the state `base` the loop over A left: only the added list and
      the highlights of B grow. */
  ghost predicate AddInv(B: seq<Block>, j: nat, base: Progress, st: Progress)
    requires j <= |B|
  {
    && st.claimed == base.claimed
    && st.res.(added := base.res.added, marksB := base.res.marksB) == base.res
    && st.res.added == base.res.added + AddedRef(B, base.claimed, j)
    && MarksHold(st.res.marksB, MarksOfB(st.res))
  }

  lemma AddInvStep(B: seq<Block>, j: nat, n: nat, base: Progress, st: Progress)
    requires j < |B| && n == j + 1 && AddInv(B, j, base, st)
    ensures AddInv(B, n, base, AddStep(B, j, st))
  {
    if j in st.claimed {
      assert AddedRef(B, base.claimed, n) == AddedRef(B, base.claimed, j);
    } else {
      var d := Addition(j, B[j]);
      var res := st.res.(added := st.res.added + [d], marksB := AppendAt(st.res.marksB, GreenMark(d).0, GreenMark(d).1));
      assert AddStep(B, j, st) == Progress(res, st.claimed);
      assert AddedRef(B, base.claimed, n) == AddedRef(B, base.claimed, j) + [d];
      assert res.added == base.res.added + AddedRef(B, base.claimed, n);
      assert MarksOfB(res) == MarksOfB(st.res) + {GreenMark(d)} by {
        ImageSnoc(st.res.added, d, GreenMark);
      }
      MarksAppend(st.res.marksB, MarksOfB(st.res), GreenMark(d).0, GreenMark(d).1);
    }
  }

  lemma {:induction false} AddFromInv(B: seq<Block>, j: nat, base: Progress, st: Progress)
    requires j <= |B| && AddInv(B, j, base, st)
    ensures AddInv(B, |B|, base, AddFrom(B, j, st))
    decreases |B| - j
  {
    if j < |B| {
      var st' := AddStep(B, j, st);
      assert AddInv(B, j + 1, base, st') by { AddInvStep(B, j, j + 1, base, st); }
      var last := AddFrom(B, j + 1, st');
      assert AddFrom(B, j, st) == last;
      assert AddInv(B, |B|, base, last) by { AddFromInv(B, j + 1, base, st'); }
    }
  }

  // ---------------------------------------------------------------------
  // What the reference lists contain
  // ---------------------------------------------------------------------

  /** `x` records block `a < n` of A, which has no match, with its own
      index. */
  predicate DeletedEntry(A: seq<Block>, props: seq<Prop>, n: nat, x: Removal)
    requires |props| == |A| && n <= |A|
  {
    x.indexA < n && props[x.indexA].None? && x.blockA == A[x.indexA]
  }

  /** Every deleted entry is a block of A without a match. */
  lemma {:induction false} DeletedRefSound(A: seq<Block>, props: seq<Prop>, n: nat)
    requires |props| == |A| && n <= |A|
    ensures forall k | 0 <= k < |DeletedRef(A, props, n)| :: DeletedEntry(A, props, n, DeletedRef(A, props, n)[k])
  {
    if n > 0 {
      var D0 := DeletedRef(A, props, n - 1);
      var D := DeletedRef(A, props, n);
      DeletedRefSound(A, props, n - 1);
      forall k | 0 <= k < |D| ensures DeletedEntry(A, props, n, D[k]) {
        if k < |D0| {
          assert D[k] == D0[k];
          assert DeletedEntry(A, props, n - 1, D0[k]);
        }
      }
    }
  }

  /** Every block of A without a match is deleted. */
  lemma {:induction false} DeletedRefComplete(A: seq<Block>, props: seq<Prop>, n: nat, a: nat)
    requires |props| == |A| && n <= |A| && a < n && props[a].None?
    ensures exists k | 0 <= k < |DeletedRef(A, props, n)| :: DeletedRef(A, props, n)[k].indexA == a
  {
    var D0 := DeletedRef(A, props, n - 1);
    var D := DeletedRef(A, props, n);
    if a == n - 1 {
      assert D[|D0|].indexA == a;
    } else {
      DeletedRefComplete(A, props, n - 1, a);
      var k :| 0 <= k < |D0| && D0[k].indexA == a;
      assert D[k].indexA == a;
    }
  }

  /** The deleted list is in increasing order of the A index. */
  lemma {:induction false} DeletedRefOrdered(A: seq<Block>, props: seq<Prop>, n: nat)
    requires |props| == |A| && n <= |A|
    ensures forall k, l | 0 <= k < l < |DeletedRef(A, props, n)| ::
      DeletedRef(A, props, n)[k].indexA < DeletedRef(A, props, n)[l].indexA
  {
    if n > 0 {
      var D0 := DeletedRef(A, props, n - 1);
      var D := DeletedRef(A, props, n);
      DeletedRefSound(A, props, n - 1);
      DeletedRefOrdered(A, props, n - 1);
      forall k, l | 0 <= k < l < |D| ensures D[k].indexA < D[l].indexA {
        assert D[k] == D0[k];
        if l < |D0| { assert D[l] == D0[l]; } else { assert DeletedEntry(A, props, n - 1, D0[k]); }
      }
    }
  }

  /** `x` records block `a < n` of A as a winning pair whose words
      differ, with its proposal. */
  predicate ModifiedEntry(A: seq<Block>, B: seq<Block>, props: seq<Prop>, n: nat, x: Modification)
    requires |props| == |A| && ValidProposals(B, props) && n <= |A|
  {
    var a := x.indexA;
    && a < n && Wins(props, a) && props[a].value.1.Modified?
    && x == Modification(a, props[a].value.0, A[a], B[props[a].value.0], props[a].value.1)
  }

  /** Every entry of the modified list is a winning pair whose words
      differ, recorded with its proposal. */
  lemma {:induction false} ModifiedRefSound(A: seq<Block>, B: seq<Block>, props: seq<Prop>, n: nat)
    requires |props| == |A| && ValidProposals(B, props) && n <= |A|
    ensures forall k | 0 <= k < |ModifiedRef(A, B, props, n)| ::
      ModifiedEntry(A, B, props, n, ModifiedRef(A, B, props, n)[k])
  {
    if n > 0 {
      var M0 := ModifiedRef(A, B, props, n - 1);
      var M := ModifiedRef(A, B, props, n);
      ModifiedRefSound(A, B, props, n - 1);
      forall k | 0 <= k < |M| ensures ModifiedEntry(A, B, props, n, M[k]) {
        if k < |M0| {
          assert M[k] == M0[k];
          assert ModifiedEntry(A, B, props, n - 1, M0[k]);
        }
      }
    }
  }

  /** Every winning pair whose words differ is in the modified list. */
  lemma {:induction false} ModifiedRefComplete(A: seq<Block>, B: seq<Block>, props: seq<Prop>, n: nat, a: nat)
    requires |props| == |A| && ValidProposals(B, props) && n <= |A|
    requires a < n && Wins(props, a) && props[a].value.1.Modified?
    ensures exists k | 0 <= k < |ModifiedRef(A, B, props, n)| :: ModifiedRef(A, B, props, n)[k].indexA == a
  {
    var M0 := ModifiedRef(A, B, props, n - 1);
    var M := ModifiedRef(A, B, props, n);
    if a == n - 1 {
      assert M[|M0|].indexA == a;
    } else {
      ModifiedRefComplete(A, B, props, n - 1, a);
      var k :| 0 <= k < |M0| && M0[k].indexA == a;
      assert M[k].indexA == a;
    }
  }

  /** The modified list is in increasing order of the A index. */
  lemma {:induction false} ModifiedRefOrdered(A: seq<Block>, B: seq<Block>, props: seq<Prop>, n: nat)
    requires |props| == |A| && ValidProposals(B, props) && n <= |A|
    ensures forall k, l | 0 <= k < l < |ModifiedRef(A, B, props, n)| ::
      ModifiedRef(A, B, props, n)[k].indexA < ModifiedRef(A, B, props, n)[l].indexA
  {
    if n > 0 {
      var M0 := ModifiedRef(A, B, props, n - 1);
      var M := ModifiedRef(A, B, props, n);
      ModifiedRefSound(A, B, props, n - 1);
      ModifiedRefOrdered(A, B, props, n - 1);
      forall k, l | 0 <= k < l < |M| ensures M[k].indexA < M[l].indexA {
        assert M[k] == M0[k];
        if l < |M0| { assert M[l] == M0[l]; } else { assert ModifiedEntry(A, B, props, n - 1, M0[k]); }
      }
    }
  }

  /** `x` records an unclaimed block below `n` of B with its own index. */
  predicate AddedEntry(B: seq<Block>, claimed: set<nat>, n: nat, x: Addition)
    requires n <= |B|
  {
    x.indexB < n && x.indexB !in claimed && x.blockB == B[x.indexB]
  }

  /** Every entry of the added list is an unclaimed block of B with its own
      index. */
  lemma {:induction false} AddedRefSound(B: seq<Block>, claimed: set<nat>, n: nat)
    requires n <= |B|
    ensures forall k | 0 <= k < |AddedRef(B, claimed, n)| ::
      AddedEntry(B, claimed, n, AddedRef(B, claimed, n)[k])
  {
    if n > 0 {
      var D0 := AddedRef(B, claimed, n - 1);
      var D := AddedRef(B, claimed, n);
      AddedRefSound(B, claimed, n - 1);
      forall k | 0 <= k < |D| ensures AddedEntry(B, claimed, n, D[k]) {
        if k < |D0| {
          assert D[k] == D0[k];
          assert AddedEntry(B, claimed, n - 1, D0[k]);
        }
      }
    }
  }

  /** Every unclaimed block of B is in the added list. */
  lemma {:induction false} AddedRefComplete(B: seq<Block>, claimed: set<nat>, n: nat, j: nat)
    requires n <= |B| && j < n && j !in claimed
    ensures exists k | 0 <= k < |AddedRef(B, claimed, n)| :: AddedRef(B, claimed, n)[k].indexB == j
  {
    var D0 := AddedRef(B, claimed, n - 1);
    var D := AddedRef(B, claimed, n);
    if j == n - 1 {
      assert D[|D0|].indexB == j;
    } else {
      AddedRefComplete(B, claimed, n - 1, j);
      var k :| 0 <= k < |D0| && D0[k].indexB == j;
      assert D[k].indexB == j;
    }
  }

  /** The added list is in increasing order of the B index. */
  lemma {:induction false} AddedRefOrdered(B: seq<Block>, claimed: set<nat>, n: nat)
    requires n <= |B|
    ensures forall k, l | 0 <= k < l < |AddedRef(B, claimed, n)| ::
      AddedRef(B, claimed, n)[k].indexB < AddedRef(B, claimed, n)[l].indexB
  {
    if n > 0 {
      var D0 := AddedRef(B, claimed, n - 1);
      var D := AddedRef(B, claimed, n);
      AddedRefSound(B, claimed, n - 1);
      AddedRefOrdered(B, claimed, n - 1);
      forall k, l | 0 <= k < l < |D| ensures D[k].indexB < D[l].indexB {
        assert D[k] == D0[k];
        if l < |D0| { assert D[l] == D0[l]; } else { assert AddedEntry(B, claimed, n - 1, D0[k]); }
      }
    }
  }

  /** The number of blocks `0..n` of B in `claimed`. */
  function ClaimedBelow(claimed: set<nat>, n: nat): nat {
    if n == 0 then 0 else ClaimedBelow(claimed, n - 1) + (if n - 1 in claimed then 1 else 0)
  }

  /** Every one of the first `n` blocks of B is either claimed or added. */
  lemma {:induction false} AddedRefCount(B: seq<Block>, claimed: set<nat>, n: nat)
    requires n <= |B|
    ensures |AddedRef(B, claimed, n)| + ClaimedBelow(claimed, n) == n
  {
    if n > 0 { AddedRefCount(B, claimed, n - 1); }
  }

  /** A set of indices below `n` has as many members as `ClaimedBelow`
      counts. */
  lemma {:induction false} ClaimedBelowCard(claimed: set<nat>, n: nat)
    requires forall j | j in claimed :: j < n
    ensures ClaimedBelow(claimed, n) == |claimed|
  {
    if n > 0 {
      var rest := claimed - {n - 1};
      ClaimedBelowCard(rest, n - 1);
      ClaimedBelowSame(claimed, rest, n - 1);
      if n - 1 in claimed {
        assert claimed == rest + {n - 1};
      } else {
        assert claimed == rest;
      }
    }
  }

  /** Two sets that agree below `n` count the same below `n`. */
  lemma {:induction false} ClaimedBelowSame(c: set<nat>, d: set<nat>, n: nat)
    requires forall j | j < n :: j in c <==> j in d
    ensures ClaimedBelow(c, n) == ClaimedBelow(d, n)
  {
    if n > 0 { ClaimedBelowSame(c, d, n - 1); }
  }

  // ---------------------------------------------------------------------
  // The invariants after both loops
  // ---------------------------------------------------------------------

  /** The state after the loop over A satisfies the invariant. */
  lemma MatchAllFate(A: seq<Block>, B: seq<Block>, props: seq<Prop>, p: Progress)
    requires |props| == |A| && ValidProposals(B, props) && p == MatchFrom(A, B, props, 0, Start)
    ensures FateInv(A, B, props, |A|, p)
  {
    assert FateInv(A, B, props, 0, Start) by {
      assert MarksHold<Highlight>(map[], {});
    }
    MatchFromFate(A, B, props, 0, Start);
  }

  /** The loop over B changes only the added list and the highlights of B,
      adds exactly the unclaimed blocks, and leaves every highlight of B
      accounted for. */
  lemma AddAll(B: seq<Block>, p: Progress, q: Progress)
    requires q == AddFrom(B, 0, p) && p.res.added == [] && MarksHold(p.res.marksB, MarksOfB(p.res))
    ensures q.claimed == p.claimed
    ensures q.res.(added := [], marksB := p.res.marksB) == p.res
    ensures q.res.added == AddedRef(B, p.claimed, |B|)
    ensures MarksHold(q.res.marksB, MarksOfB(q.res))
  {
    assert AddInv(B, |B|, p, q) by {
      AddStart(B, p);
      AddFromInv(B, 0, p, p);
    }
    AddInvDone(B, p, q);
  }

  /** The invariant at the end of the loop over B, for an empty start. */
  lemma AddInvDone(B: seq<Block>, p: Progress, q: Progress)
    requires AddInv(B, |B|, p, q) && p.res.added == []
    ensures q.claimed == p.claimed
    ensures q.res.(added := [], marksB := p.res.marksB) == p.res
    ensures q.res.added == AddedRef(B, p.claimed, |B|)
    ensures MarksHold(q.res.marksB, MarksOfB(q.res))
  {
    assert p.res.added + AddedRef(B, p.claimed, |B|) == AddedRef(B, p.claimed, |B|);
  }

  lemma AddStart(B: seq<Block>, p: Progress)
    requires p.res.added == [] && MarksHold(p.res.marksB, MarksOfB(p.res))
    ensures AddInv(B, 0, p, p)
  {
  }

  // ---------------------------------------------------------------------
  // What compare_blocks returns
  // ---------------------------------------------------------------------

  /** The index of the best match of each block of A in B, if any. */
  function BestIndices(A: seq<Block>, B: seq<Block>, ratio: RatioFn): (r: seq<Option<nat>>)
    ensures |r| == |A|
    ensures forall a | 0 <= a < |A| ::
      (r[a].None? <==> FindBestMatch(A[a], B, ratio).None?)
      && (r[a].Some? ==> r[a].value == FindBestMatch(A[a], B, ratio).value.0 && r[a].value < |B|)
  {
    seq(|A|, a requires 0 <= a < |A| =>
      var best := FindBestMatch(A[a], B, ratio);
      if best.None? then None else Some(best.value.0))
  }

  /** Position `a` has a best match, and no earlier position has the same
      best match. */
  predicate FirstOf(best: seq<Option<nat>>, a: nat)
    requires a < |best|
  {
    best[a].Some? && forall e | 0 <= e < a :: best[e] != best[a]
  }

  /** The proposals name the same blocks as the best indices. */
  predicate Agree(props: seq<Prop>, best: seq<Option<nat>>) {
    && |best| == |props|
    && forall k | 0 <= k < |props| ::
         (props[k].None? <==> best[k].None?) && (props[k].Some? ==> best[k] == Some(props[k].value.0))
  }

  lemma ProposalsAgree(A: seq<Block>, B: seq<Block>, ratio: RatioFn, differ: DiffFn)
    ensures Agree(Proposals(A, B, ratio, differ), BestIndices(A, B, ratio))
  {
  }

  /** Winning is being first to match. */
  lemma WinsFirst(props: seq<Prop>, best: seq<Option<nat>>, a: nat)
    requires Agree(props, best) && a < |props|
    ensures Wins(props, a) <==> FirstOf(best, a)
  {
    if props[a].Some? {
      var j := props[a].value.0;
      ProposedMembers(props, a, j);
      if j in Proposed(props, a) {
        var e :| 0 <= e < a && props[e].Some? && props[e].value.0 == j;
        assert best[e] == best[a];
      } else {
        forall e | 0 <= e < a ensures best[e] != best[a] {
          if best[e].Some? { assert props[e].Some?; }
        }
      }
    }
  }

  /** Each proposal carries the word-level comparison of its two blocks. */
  predicate Describes(A: seq<Block>, B: seq<Block>, differ: DiffFn, props: seq<Prop>) {
    && |props| == |A|
    && forall a | 0 <= a < |A| && props[a].Some? && props[a].value.0 < |B| ::
         props[a].value.1 == CompareWordLevel(A[a].text, B[props[a].value.0].text, differ)
  }

  lemma ProposalsDescribe(A: seq<Block>, B: seq<Block>, ratio: RatioFn, differ: DiffFn)
    ensures Describes(A, B, differ, Proposals(A, B, ratio, differ))
  {
  }

  /** The result of both loops, stated over the proposals alone. */
  ghost predicate Settled(A: seq<Block>, B: seq<Block>, differ: DiffFn, props: seq<Prop>, best: seq<Option<nat>>, r: Results) {
    var m := r.syncMap;
    && |props| == |A| && ValidProposals(B, props) && Agree(props, best) && Describes(A, B, differ, props)
    && MapFate(props, |A|, m.Values, m)
    && r.deleted == DeletedRef(A, props, |A|)
    && r.modified == ModifiedRef(A, B, props, |A|)
    && r.added == AddedRef(B, m.Values, |B|)
    && MarksFate(r)
    && |m.Values| == |m| && Injective(m) && (forall a | a in m :: a < |A| && m[a] < |B|)
    && |m| + |r.deleted| <= |A| && |r.modified| <= |m|
  }

  lemma SettledFrom(A: seq<Block>, B: seq<Block>, differ: DiffFn, props: seq<Prop>, best: seq<Option<nat>>,
                    p: Progress, r: Results)
    requires |props| == |A| && ValidProposals(B, props) && Agree(props, best) && Describes(A, B, differ, props)
    requires FateInv(A, B, props, |A|, p) && Bookkeeping(|A|, |B|, p)
    requires r.(added := [], marksB := p.res.marksB) == p.res
    requires r.added == AddedRef(B, p.claimed, |B|) && MarksHold(r.marksB, MarksOfB(r))
    ensures Settled(A, B, differ, props, best, r)
  {
    assert r.syncMap == p.res.syncMap && r.deleted == p.res.deleted && r.modified == p.res.modified;
    assert r.marksA == p.res.marksA;
  }

  /** `compare_blocks` ends in the settled state of its proposals. */
  lemma CompareBlocksSettled(A: seq<Block>, B: seq<Block>, ratio: RatioFn, differ: DiffFn, r: Results)
    requires r == CompareBlocks(A, B, ratio, differ)
    ensures Settled(A, B, differ, Proposals(A, B, ratio, differ), BestIndices(A, B, ratio), r)
  {
    var props := Proposals(A, B, ratio, differ);
    var best := BestIndices(A, B, ratio);
    var p := MatchAll(A, B, ratio, differ);
    var q := AddFrom(B, 0, p);
    MatchAllFate(A, B, props, p);
    MatchAllBookkeeping(A, B, props, p);
    AddAll(B, p, q);
    ProposalsAgree(A, B, ratio, differ);
    ProposalsDescribe(A, B, ratio, differ);
    SettledFrom(A, B, differ, props, best, p, q.res);
  }

  /** The sync map maps exactly the blocks of A that are first to match,
      each to its best match, and no two blocks to the same block of B. */
  predicate SyncSpec(best: seq<Option<nat>>, r: Results) {
    && (forall a | a in r.syncMap :: a < |best| && best[a] == Some(r.syncMap[a]))
    && (forall a | 0 <= a < |best| :: a in r.syncMap <==> FirstOf(best, a))
    && Injective(r.syncMap)
  }

  /** The deleted list holds exactly the blocks of A without a best match,
      each with its own index, in increasing order. */
  predicate DeletedSpec(A: seq<Block>, best: seq<Option<nat>>, r: Results)
    requires |best| == |A|
  {
    && (forall k | 0 <= k < |r.deleted| ::
          && r.deleted[k].indexA < |A| && r.deleted[k].blockA == A[r.deleted[k].indexA]
          && best[r.deleted[k].indexA].None?)
    && (forall a | 0 <= a < |A| && best[a].None? :: exists k | 0 <= k < |r.deleted| :: r.deleted[k].indexA == a)
    && (forall k, l | 0 <= k < l < |r.deleted| :: r.deleted[k].indexA < r.deleted[l].indexA)
  }

  /** `d` is a mapped pair of the sync map whose word-level comparison
      reports a change, with both blocks and that comparison. */
  predicate ModifiedPair(A: seq<Block>, B: seq<Block>, differ: DiffFn, m: map<nat, nat>, d: Modification) {
    && d.indexA in m && d.indexA < |A| && d.indexB == m[d.indexA] && d.indexB < |B|
    && d.blockA == A[d.indexA] && d.blockB == B[d.indexB]
    && d.wordDiff == CompareWordLevel(A[d.indexA].text, B[d.indexB].text, differ)
    && d.wordDiff.Modified?
  }

  /** The modified list holds exactly the mapped pairs whose word-level
      comparison reports a change, in increasing order of the A index. */
  predicate ModifiedSpec(A: seq<Block>, B: seq<Block>, differ: DiffFn, r: Results) {
    && (forall k | 0 <= k < |r.modified| :: ModifiedPair(A, B, differ, r.syncMap, r.modified[k]))
    && (forall a | a in r.syncMap && a < |A| && r.syncMap[a] < |B|
                   && CompareWordLevel(A[a].text, B[r.syncMap[a]].text, differ).Modified? ::
          exists k | 0 <= k < |r.modified| :: r.modified[k].indexA == a)
    && (forall k, l | 0 <= k < l < |r.modified| :: r.modified[k].indexA < r.modified[l].indexA)
  }

  /** The added list holds exactly the blocks of B nothing is mapped to, in
      increasing order, so every block of B is mapped to or added. */
  predicate AddedSpec(B: seq<Block>, r: Results) {
    && (forall k | 0 <= k < |r.added| ::
          r.added[k].indexB < |B| && r.added[k].blockB == B[r.added[k].indexB]
          && r.added[k].indexB !in r.syncMap.Values)
    && (forall j | 0 <= j < |B| && j !in r.syncMap.Values :: exists k | 0 <= k < |r.added| :: r.added[k].indexB == j)
    && (forall k, l | 0 <= k < l < |r.added| :: r.added[k].indexB < r.added[l].indexB)
    && |r.added| + |r.syncMap| == |B|
  }

  /** On A, a red mark for each deleted block and a yellow mark for each
      modified pair; on B, a yellow mark for each modified pair and a green
      mark for each added block; nothing else. */
  ghost predicate MarksSpec(r: Results) {
    && (forall pg, h :: (pg in r.marksA && h in r.marksA[pg]) <==>
          || (exists k | 0 <= k < |r.deleted| :: RedMark(r.deleted[k]) == (pg, h))
          || (exists k | 0 <= k < |r.modified| :: YellowMarkA(r.modified[k]) == (pg, h)))
    && (forall pg, h :: (pg in r.marksB && h in r.marksB[pg]) <==>
          || (exists k | 0 <= k < |r.modified| :: YellowMarkB(r.modified[k]) == (pg, h))
          || (exists k | 0 <= k < |r.added| :: GreenMark(r.added[k]) == (pg, h)))
  }

  lemma SyncFacts(A: seq<Block>, B: seq<Block>, differ: DiffFn, props: seq<Prop>, best: seq<Option<nat>>, r: Results)
    requires Settled(A, B, differ, props, best, r)
    ensures SyncSpec(best, r)
  {
    forall a | 0 <= a < |best| ensures a in r.syncMap <==> FirstOf(best, a) {
      WinsFirst(props, best, a);
    }
  }

  lemma DeletedFacts(A: seq<Block>, B: seq<Block>, differ: DiffFn, props: seq<Prop>, best: seq<Option<nat>>, r: Results)
    requires Settled(A, B, differ, props, best, r)
    ensures DeletedSpec(A, best, r)
  {
    DeletedRefSound(A, props, |A|);
    DeletedRefOrdered(A, props, |A|);
    forall k | 0 <= k < |r.deleted|
      ensures r.deleted[k].indexA < |A| && r.deleted[k].blockA == A[r.deleted[k].indexA]
        && best[r.deleted[k].indexA].None?
    {
      assert DeletedEntry(A, props, |A|, r.deleted[k]);
    }
    forall a | 0 <= a < |A| && best[a].None?
      ensures exists k | 0 <= k < |r.deleted| :: r.deleted[k].indexA == a
    {
      DeletedRefComplete(A, props, |A|, a);
    }
  }

  lemma ModifiedFacts(A: seq<Block>, B: seq<Block>, differ: DiffFn, props: seq<Prop>, best: seq<Option<nat>>, r: Results)
    requires Settled(A, B, differ, props, best, r)
    ensures ModifiedSpec(A, B, differ, r)
  {
    ModifiedRefSound(A, B, props, |A|);
    ModifiedRefOrdered(A, B, props, |A|);
    forall k | 0 <= k < |r.modified| ensures ModifiedPair(A, B, differ, r.syncMap, r.modified[k]) {
      assert ModifiedEntry(A, B, props, |A|, r.modified[k]);
    }
    forall a | a in r.syncMap && a < |A| && r.syncMap[a] < |B|
               && CompareWordLevel(A[a].text, B[r.syncMap[a]].text, differ).Modified?
      ensures exists k | 0 <= k < |r.modified| :: r.modified[k].indexA == a
    {
      ModifiedRefComplete(A, B, props, |A|, a);
    }
  }

  lemma AddedFacts(A: seq<Block>, B: seq<Block>, differ: DiffFn, props: seq<Prop>, best: seq<Option<nat>>, r: Results)
    requires Settled(A, B, differ, props, best, r)
    ensures AddedSpec(B, r)
  {
    AddedListFacts(B, r.syncMap.Values, r.added);
    AddedCountFacts(B, r.syncMap, r.added);
  }

  lemma AddedListFacts(B: seq<Block>, c: set<nat>, added: seq<Addition>)
    requires added == AddedRef(B, c, |B|)
    ensures forall k | 0 <= k < |added| ::
      added[k].indexB < |B| && added[k].blockB == B[added[k].indexB] && added[k].indexB !in c
    ensures forall j | 0 <= j < |B| && j !in c :: exists k | 0 <= k < |added| :: added[k].indexB == j
    ensures forall k, l | 0 <= k < l < |added| :: added[k].indexB < added[l].indexB
  {
    AddedRefSound(B, c, |B|);
    AddedRefOrdered(B, c, |B|);
    forall k | 0 <= k < |added|
      ensures added[k].indexB < |B| && added[k].blockB == B[added[k].indexB] && added[k].indexB !in c
    {
      assert AddedEntry(B, c, |B|, added[k]);
    }
    forall j | 0 <= j < |B| && j !in c ensures exists k | 0 <= k < |added| :: added[k].indexB == j {
      AddedRefComplete(B, c, |B|, j);
    }
  }

  lemma AddedCountFacts(B: seq<Block>, m: map<nat, nat>, added: seq<Addition>)
    requires added == AddedRef(B, m.Values, |B|)
    requires |m.Values| == |m| && forall a | a in m :: m[a] < |B|
    ensures |added| + |m| == |B|
  {
    forall j | j in m.Values ensures j < |B| {
      var a :| a in m && m[a] == j;
    }
    ClaimedBelowCard(m.Values, |B|);
    AddedRefCount(B, m.Values, |B|);
  }

  lemma MarksFacts(r: Results)
    requires MarksFate(r)
    ensures MarksSpec(r)
  {
    MarksFactsA(r);
    MarksFactsB(r);
  }

  lemma MarksFactsA(r: Results)
    requires MarksHold(r.marksA, MarksOfA(r))
    ensures forall pg, h :: (pg in r.marksA && h in r.marksA[pg]) <==>
      || (exists k | 0 <= k < |r.deleted| :: RedMark(r.deleted[k]) == (pg, h))
      || (exists k | 0 <= k < |r.modified| :: YellowMarkA(r.modified[k]) == (pg, h))
  {
    forall pg, h ensures (pg in r.marksA && h in r.marksA[pg]) <==>
      || (exists k | 0 <= k < |r.deleted| :: RedMark(r.deleted[k]) == (pg, h))
      || (exists k | 0 <= k < |r.modified| :: YellowMarkA(r.modified[k]) == (pg, h))
    {
      ImageMembers(r.deleted, RedMark, (pg, h));
      ImageMembers(r.modified, YellowMarkA, (pg, h));
    }
  }

  lemma MarksFactsB(r: Results)
    requires MarksHold(r.marksB, MarksOfB(r))
    ensures forall pg, h :: (pg in r.marksB && h in r.marksB[pg]) <==>
      || (exists k | 0 <= k < |r.modified| :: YellowMarkB(r.modified[k]) == (pg, h))
      || (exists k | 0 <= k < |r.added| :: GreenMark(r.added[k]) == (pg, h))
  {
    forall pg, h ensures (pg in r.marksB && h in r.marksB[pg]) <==>
      || (exists k | 0 <= k < |r.modified| :: YellowMarkB(r.modified[k]) == (pg, h))
      || (exists k | 0 <= k < |r.added| :: GreenMark(r.added[k]) == (pg, h))
    {
      ImageMembers(r.modified, YellowMarkB, (pg, h));
      ImageMembers(r.added, GreenMark, (pg, h));
    }
  }

  /** The sync map: a block of A is mapped exactly when it is the first
      block of A whose best match is that block of B, and then it is mapped
      to its best match. No two blocks of A share a block of B. */
  lemma CompareBlocksSyncMap(A: seq<Block>, B: seq<Block>, ratio: RatioFn, differ: DiffFn, r: Results)
    requires r == CompareBlocks(A, B, ratio, differ)
    ensures SyncSpec(BestIndices(A, B, ratio), r)
  {
    CompareBlocksSettled(A, B, ratio, differ, r);
    SyncFacts(A, B, differ, Proposals(A, B, ratio, differ), BestIndices(A, B, ratio), r);
  }

  /** The deleted list: exactly the blocks of A without a best match. */
  lemma CompareBlocksDeleted(A: seq<Block>, B: seq<Block>, ratio: RatioFn, differ: DiffFn, r: Results)
    requires r == CompareBlocks(A, B, ratio, differ)
    ensures DeletedSpec(A, BestIndices(A, B, ratio), r)
  {
    CompareBlocksSettled(A, B, ratio, differ, r);
    DeletedFacts(A, B, differ, Proposals(A, B, ratio, differ), BestIndices(A, B, ratio), r);
  }

  /** The modified list: exactly the mapped pairs whose words differ. */
  lemma CompareBlocksModified(A: seq<Block>, B: seq<Block>, ratio: RatioFn, differ: DiffFn, r: Results)
    requires r == CompareBlocks(A, B, ratio, differ)
    ensures ModifiedSpec(A, B, differ, r)
  {
    CompareBlocksSettled(A, B, ratio, differ, r);
    ModifiedFacts(A, B, differ, Proposals(A, B, ratio, differ), BestIndices(A, B, ratio), r);
  }

  /** The added list: exactly the blocks of B nothing is mapped to. */
  lemma CompareBlocksAdded(A: seq<Block>, B: seq<Block>, ratio: RatioFn, differ: DiffFn, r: Results)
    requires r == CompareBlocks(A, B, ratio, differ)
    ensures AddedSpec(B, r)
  {
    CompareBlocksSettled(A, B, ratio, differ, r);
    AddedFacts(A, B, differ, Proposals(A, B, ratio, differ), BestIndices(A, B, ratio), r);
  }

  /** Every highlight comes from a recorded decision and every recorded
      decision left its highlight, keyed by its own block's page and with
      that block's rectangle. */
  lemma CompareBlocksMarks(A: seq<Block>, B: seq<Block>, ratio: RatioFn, differ: DiffFn, r: Results)
    requires r == CompareBlocks(A, B, ratio, differ)
    ensures MarksSpec(r)
  {
    CompareBlocksSettled(A, B, ratio, differ, r);
    MarksFacts(r);
  }

  // ---------------------------------------------------------------------
  // get_diff_count
  // ---------------------------------------------------------------------

  datatype DiffCount = DiffCount(modified: nat, deleted: nat, added: nat, total: nat)

  /** `get_diff_count`: the sizes of the three lists and their sum. */
  function GetDiffCount(r: Results): DiffCount {
    DiffCount(|r.modified|, |r.deleted|, |r.added|, |r.modified| + |r.deleted| + |r.added|)
  }

  /** The counts of a comparison: at most one entry per block of A among
      the mapped and deleted blocks, at most one modified entry per mapped
      pair, one added entry per unmapped block of B, so never more
      differences than blocks. */
  lemma CompareBlocksCount(A: seq<Block>, B: seq<Block>, ratio: RatioFn, differ: DiffFn, r: Results)
    requires r == CompareBlocks(A, B, ratio, differ)
    ensures GetDiffCount(r).deleted + |r.syncMap| <= |A|
    ensures GetDiffCount(r).modified <= |r.syncMap|
    ensures GetDiffCount(r).added == |B| - |r.syncMap|
    ensures GetDiffCount(r).total <= |A| + |B|
  {
    CompareBlocksSettled(A, B, ratio, differ, r);
    AddedFacts(A, B, differ, Proposals(A, B, ratio, differ), BestIndices(A, B, ratio), r);
  }

  // ---------------------------------------------------------------------
  // Comparing a document with itself
  // ---------------------------------------------------------------------

  /** What `SequenceMatcher.ratio` guarantees: it never exceeds 1 and is 1
      exactly for equal strings. */
  ghost predicate RatioLaws(ratio: RatioFn) {
    forall s, t :: ratio(s, t) <= 1.0 && (ratio(s, t) == 1.0 <==> s == t)
  }

  /** Every block has text left after normalisation, and no two blocks
      normalise to the same text. */
  predicate DistinctTexts(X: seq<Block>) {
    && (forall i | 0 <= i < |X| :: NormalizeText(X[i].text) != [])
    && (forall i, k | 0 <= i < k < |X| :: NormalizeText(X[i].text) != NormalizeText(X[k].text))
  }

  /** The scores of a document against itself: block `i` scores 1.1,
      every block scores at most that, and every other block less. */
  lemma SelfScores(X: seq<Block>, ratio: RatioFn, i: nat, sc: seq<Option<real>>)
    requires RatioLaws(ratio) && DistinctTexts(X) && i < |X| && sc == Scores(X[i], X, ratio)
    ensures sc[i] == Some(1.0 + SectionBonus)
    ensures forall m | 0 <= m < |sc| && sc[m].Some? :: sc[m].value <= 1.0 + SectionBonus
    ensures forall m | 0 <= m < |sc| && m != i && sc[m].Some? :: sc[m].value < 1.0 + SectionBonus
  {
    var t := NormalizeText(X[i].text);
    assert ratio(t, t) == 1.0;
    forall m | 0 <= m < |sc| && m != i && sc[m].Some? ensures sc[m].value < 1.0 + SectionBonus {
      var u := NormalizeText(X[m].text);
      assert u != t by {
        if m < i { assert NormalizeText(X[m].text) != NormalizeText(X[i].text); }
      }
      assert ratio(t, u) <= 1.0 && ratio(t, u) != 1.0;
    }
  }

  /** In a document with distinct texts, each block's best match in the
      same document is itself. */
  lemma SelfBest(X: seq<Block>, ratio: RatioFn, i: nat)
    requires RatioLaws(ratio) && DistinctTexts(X) && i < |X|
    ensures FindBestMatch(X[i], X, ratio) == Some((i, 1.0 + SectionBonus))
  {
    var sc := Scores(X[i], X, ratio);
    SelfScores(X, ratio, i, sc);
    Matching.FirstBestUnique(sc, i);
  }

  /** A word-level comparison of a text with itself finds no change. */
  lemma SameText(text: string, differ: DiffFn)
    ensures CompareWordLevel(text, text, differ) == Same
  {
  }

  /** No proposal reports a change, so the modified list stays empty. */
  lemma {:induction false} ModifiedRefNone(A: seq<Block>, B: seq<Block>, props: seq<Prop>, n: nat)
    requires |props| == |A| && ValidProposals(B, props) && n <= |A|
    requires forall a | 0 <= a < n && props[a].Some? :: !props[a].value.1.Modified?
    ensures ModifiedRef(A, B, props, n) == []
  {
    if n > 0 { ModifiedRefNone(A, B, props, n - 1); }
  }

  /** A set holding every index below `n` counts `n` of them. */
  lemma {:induction false} ClaimedBelowAll(c: set<nat>, n: nat)
    requires forall j: nat | j < n :: j in c
    ensures ClaimedBelow(c, n) == n
  {
    if n > 0 { ClaimedBelowAll(c, n - 1); }
  }

  /** Comparing a document whose blocks have distinct texts with itself
      maps every block to itself and reports nothing. */
  lemma CompareBlocksSelf(X: seq<Block>, ratio: RatioFn, differ: DiffFn, r: Results)
    requires RatioLaws(ratio) && DistinctTexts(X)
    requires r == CompareBlocks(X, X, ratio, differ)
    ensures forall i: nat :: i in r.syncMap <==> i < |X|
    ensures forall i | i in r.syncMap :: r.syncMap[i] == i
    ensures r.modified == [] && r.deleted == [] && r.added == []
  {
    var best := BestIndices(X, X, ratio);
    forall i | 0 <= i < |X| ensures best[i] == Some(i) {
      SelfBest(X, ratio, i);
    }
    CompareBlocksSettled(X, X, ratio, differ, r);
    SelfFacts(X, differ, Proposals(X, X, ratio, differ), best, r);
  }

  lemma SelfFacts(X: seq<Block>, differ: DiffFn, props: seq<Prop>, best: seq<Option<nat>>, r: Results)
    requires Settled(X, X, differ, props, best, r)
    requires forall i | 0 <= i < |X| :: best[i] == Some(i)
    ensures forall i: nat :: i in r.syncMap <==> i < |X|
    ensures forall i | i in r.syncMap :: r.syncMap[i] == i
    ensures r.modified == [] && r.deleted == [] && r.added == []
  {
    SyncFacts(X, X, differ, props, best, r);
    SelfSync(best, r.syncMap);
    AddedCountFacts(X, r.syncMap, r.added);
    forall a | 0 <= a < |X| && props[a].Some? ensures !props[a].value.1.Modified? {
      assert props[a].value.0 == a;
      SameText(X[a].text, differ);
    }
    ModifiedRefNone(X, X, props, |X|);
  }

  /** When every block's best match is itself, the sync map is the
      identity on all of them. */
  lemma SelfSync(best: seq<Option<nat>>, m: map<nat, nat>)
    requires forall i | 0 <= i < |best| :: best[i] == Some(i)
    requires forall a | a in m :: a < |best| && best[a] == Some(m[a])
    requires forall a | 0 <= a < |best| :: a in m <==> FirstOf(best, a)
    ensures forall i: nat :: i in m <==> i < |best|
    ensures forall i | i in m :: m[i] == i
    ensures |m| == |best|
  {
    forall i | 0 <= i < |best| ensures i in m.Keys {
      forall e | 0 <= e < i ensures best[e] != best[i] {
        assert best[e] == Some(e);
      }
      assert FirstOf(best, i);
    }
    forall i | i in m ensures i < |best| && m[i] == i {
      assert best[i] == Some(m[i]);
    }
    ClaimedBelowAll(m.Keys, |best|);
    ClaimedBelowCard(m.Keys, |best|);
  }
}
