/** The character-level comparator: the characters inside a dragged rectangle
    are filtered, grouped into lines by their height on the page, ordered
    left to right, cleared of overprinted duplicates, and compared through
    `difflib` opcodes that paint the differing characters. */
module CharCompare {
  import opened Basics
  import opened Text
  import Sorting

  /** A character joins the current line when it sits less than this far
      below the line's last character. */
  const LineGap: real := 5.0
  /** The same character again less than this far to the right is an
      overprint of the one before. */
  const OverprintGap: real := 2.5

  /** The first document's colour: deleted or replaced characters. */
  const FirstColor: Rgba := Rgba(255, 0, 255, 70)
  /** The second document's colour: inserted or replaced characters. */
  const SecondColor: Rgba := Rgba(0, 200, 100, 70)

  /** One character of PyMuPDF's `rawdict` output. */
  datatype RawChar = RawChar(c: char, box: BBox)

  /** One entry of a viewer's `char_data`. */
  datatype CharInfo = CharInfo(c: char, box: BBox, page: nat)

  // ---------------------------------------------------------------------
  // Filter
  // ---------------------------------------------------------------------

  /** The characters the extractor accepts: Hangul syllables, consonant
      jamo, digits, Latin letters and the space. */
  predicate Accepted(c: char) {
    IsHangulSyllable(c) || IsJamoConsonant(c) || IsDigit(c) || IsAsciiLetter(c) || c == ' '
  }

  /** What an accepted character looks like once stored: letters lower-case. */
  predicate Stored(c: char) {
    IsHangulSyllable(c) || IsJamoConsonant(c) || IsDigit(c) || IsAsciiLower(c) || c == ' '
  }

  function Admit(r: RawChar): seq<RawChar> {
    if Accepted(r.c) then [RawChar(LowerChar(r.c), r.box)] else []
  }

  /** The accepted characters in extraction order, letters lower-cased. */
  function Admitted(raws: seq<RawChar>): seq<RawChar> {
    FlatMap(raws, Admit)
  }

  lemma AdmitMembers(r: RawChar, x: RawChar)
    ensures x in Admit(r) <==> Accepted(r.c) && x == RawChar(LowerChar(r.c), r.box)
    ensures x in Admit(r) ==> Stored(x.c)
  {
  }

  /** A character survives the filter exactly when some raw character is
      accepted and becomes it, and what survives is stored form. */
  lemma AdmittedMembers(raws: seq<RawChar>, x: RawChar)
    ensures x in Admitted(raws) <==>
      exists k | 0 <= k < |raws| :: Accepted(raws[k].c) && x == RawChar(LowerChar(raws[k].c), raws[k].box)
    ensures x in Admitted(raws) ==> Stored(x.c)
  {
    FlatMapMembers(raws, Admit, x);
    forall k | 0 <= k < |raws|
      ensures x in Admit(raws[k]) <==> Accepted(raws[k].c) && x == RawChar(LowerChar(raws[k].c), raws[k].box)
    {
      AdmitMembers(raws[k], x);
    }
    if x in Admitted(raws) {
      var k :| 0 <= k < |raws| && x in Admit(raws[k]);
      AdmitMembers(raws[k], x);
    }
  }

  // ---------------------------------------------------------------------
  // Lines
  // ---------------------------------------------------------------------

  function YKey(r: RawChar): (real, real) { (r.box.y0, 0.0) }

  function XKey(r: RawChar): (real, real) { (r.box.x0, 0.0) }

  /** `c` continues a line whose last character is `prev`. */
  predicate Joins(prev: RawChar, c: RawChar) {
    c.box.y0 - prev.box.y0 < LineGap
  }

  function LastOf<T>(s: seq<T>): T
    requires s != []
  {
    s[|s| - 1]
  }

  /** The grouping loop: each character joins the current line or starts a
      new one. */
  function Group(cs: seq<RawChar>): (r: seq<seq<RawChar>>)
    ensures forall k | 0 <= k < |r| :: r[k] != []
    ensures r == [] <==> cs == []
  {
    if cs == [] then []
    else
      var g := Group(cs[..|cs| - 1]);
      var c := cs[|cs| - 1];
      if g != [] && Joins(LastOf(g[|g| - 1]), c) then g[..|g| - 1] + [g[|g| - 1] + [c]]
      else g + [[c]]
  }

  /** Inside a line, each character joins its predecessor. */
  predicate Chained(l: seq<RawChar>) {
    forall k | 0 < k < |l| :: Joins(l[k - 1], l[k])
  }

  /** Between two consecutive lines, the second's first character does not
      join the first's last one. */
  predicate Break(a: seq<RawChar>, b: seq<RawChar>) {
    a != [] && b != [] && !Joins(LastOf(a), b[0])
  }

  /** `ls` splits `cs` into lines the way the grouping loop describes. */
  predicate Grouping(cs: seq<RawChar>, ls: seq<seq<RawChar>>) {
    Flatten(ls) == cs
    && (forall k | 0 <= k < |ls| :: ls[k] != [] && Chained(ls[k]))
    && (forall k | 0 < k < |ls| :: Break(ls[k - 1], ls[k]))
  }

  lemma FlattenGrow<T>(init: seq<seq<T>>, last: seq<T>, c: T)
    ensures Flatten(init + [last + [c]]) == Flatten(init + [last]) + [c]
  {
    FlattenSnoc(init, last + [c]);
    FlattenSnoc(init, last);
    var j := Flatten(init);
    assert j + (last + [c]) == (j + last) + [c];
  }

  lemma GroupStartsLine(ls: seq<seq<RawChar>>, cs: seq<RawChar>, c: RawChar)
    requires Grouping(cs, ls)
    requires ls == [] || !Joins(LastOf(ls[|ls| - 1]), c)
    ensures Grouping(cs + [c], ls + [[c]])
  {
    FlattenSnoc(ls, [c]);
    var r := ls + [[c]];
    forall k | 0 < k < |r| ensures Break(r[k - 1], r[k]) {
      if k < |ls| { assert r[k - 1] == ls[k - 1] && r[k] == ls[k]; }
    }
  }

  lemma GroupExtendsLine(ls: seq<seq<RawChar>>, cs: seq<RawChar>, c: RawChar)
    requires Grouping(cs, ls) && ls != []
    requires Joins(LastOf(ls[|ls| - 1]), c)
    ensures Grouping(cs + [c], ls[..|ls| - 1] + [ls[|ls| - 1] + [c]])
  {
    var n := |ls| - 1;
    var l := ls[n] + [c];
    var r := ls[..n] + [l];
    FlattenGrow(ls[..n], ls[n], c);
    assert ls[..n] + [ls[n]] == ls;
    assert Chained(l) by {
      forall k | 0 < k < |l| ensures Joins(l[k - 1], l[k]) {
        if k < |ls[n]| { assert l[k - 1] == ls[n][k - 1] && l[k] == ls[n][k]; }
      }
    }
    forall k | 0 < k < |r| ensures Break(r[k - 1], r[k]) {
      assert r[k - 1] == ls[k - 1];
      if k < n { assert r[k] == ls[k]; } else { assert r[k][0] == ls[k][0]; }
    }
    forall k | 0 <= k < |r| ensures r[k] != [] && Chained(r[k]) {
      if k < n { assert r[k] == ls[k]; }
    }
  }

  /** The grouping loop splits the sorted characters into lines, in order:
      each line is chained and each new line starts where a character does
      not join the line before. */
  lemma {:induction false} GroupIsGrouping(cs: seq<RawChar>)
    ensures Grouping(cs, Group(cs))
  {
    if cs != [] {
      var init := cs[..|cs| - 1];
      var c := cs[|cs| - 1];
      var g := Group(init);
      GroupIsGrouping(init);
      assert cs == init + [c];
      if g != [] && Joins(LastOf(g[|g| - 1]), c) {
        GroupExtendsLine(g, init, c);
      } else {
        GroupStartsLine(g, init, c);
      }
    }
  }

  lemma FlattenNonEmpty<T>(ls: seq<seq<T>>)
    requires forall k | 0 <= k < |ls| :: ls[k] != []
    ensures Flatten(ls) == [] <==> ls == []
  {
    if ls != [] {
      assert |Flatten(ls)| >= |ls[|ls| - 1]|;
    }
  }

  lemma FlattenLastOf<T>(ls: seq<seq<T>>)
    requires ls != [] && ls[|ls| - 1] != []
    ensures Flatten(ls) != [] && LastOf(Flatten(ls)) == LastOf(ls[|ls| - 1])
  {
  }

  /** Removing the last character of a grouping. */
  lemma GroupingInit(cs: seq<RawChar>, ls: seq<seq<RawChar>>)
    requires Grouping(cs, ls) && cs != []
    ensures ls != [] && ls[|ls| - 1] != [] && LastOf(ls[|ls| - 1]) == cs[|cs| - 1]
    ensures |ls[|ls| - 1]| == 1 ==> Grouping(cs[..|cs| - 1], ls[..|ls| - 1])
    ensures |ls[|ls| - 1]| > 1 ==>
      var l := ls[|ls| - 1];
      Grouping(cs[..|cs| - 1], ls[..|ls| - 1] + [l[..|l| - 1]])
  {
    var n := |ls| - 1;
    var init := ls[..n];
    var l := ls[n];
    assert ls == init + [l];
    FlattenSnoc(init, l);
    if |l| == 1 {
      assert cs[..|cs| - 1] == Flatten(init);
      forall k | 0 < k < |init| ensures Break(init[k - 1], init[k]) {
        assert init[k - 1] == ls[k - 1] && init[k] == ls[k];
      }
    } else {
      var l' := l[..|l| - 1];
      var r := init + [l'];
      FlattenSnoc(init, l');
      assert l == l' + [l[|l| - 1]];
      assert cs[..|cs| - 1] == Flatten(r);
      assert Chained(l') by {
        forall k | 0 < k < |l'| ensures Joins(l'[k - 1], l'[k]) {
          assert l'[k - 1] == l[k - 1] && l'[k] == l[k];
        }
      }
      forall k | 0 < k < |r| ensures Break(r[k - 1], r[k]) {
        assert r[k - 1] == ls[k - 1];
        if k < n { assert r[k] == ls[k]; } else { assert r[k][0] == ls[k][0]; }
      }
      forall k | 0 <= k < |r| ensures r[k] != [] && Chained(r[k]) {
        if k < n { assert r[k] == ls[k]; }
      }
    }
  }

  /** There is only one way to split a sequence of characters into lines as
      the grouping loop describes, so the loop computes it. */
  lemma {:induction false} GroupingUnique(cs: seq<RawChar>, ls: seq<seq<RawChar>>)
    requires Grouping(cs, ls)
    ensures ls == Group(cs)
    decreases |cs|, 1
  {
    if cs == [] {
      FlattenNonEmpty(ls);
    } else {
      GroupingInit(cs, ls);
      if |ls[|ls| - 1]| == 1 {
        UniqueNewLine(cs, ls);
      } else {
        UniqueSameLine(cs, ls);
      }
    }
  }

  lemma {:induction false} UniqueNewLine(cs: seq<RawChar>, ls: seq<seq<RawChar>>)
    requires Grouping(cs, ls) && cs != [] && ls != [] && |ls[|ls| - 1]| == 1
    ensures ls == Group(cs)
    decreases |cs|, 0
  {
    var init := cs[..|cs| - 1];
    var c := cs[|cs| - 1];
    var n := |ls| - 1;
    GroupingInit(cs, ls);
    GroupingUnique(init, ls[..n]);
    var g := Group(init);
    assert ls[n] == [c];
    if g != [] {
      assert Break(ls[n - 1], ls[n]);
    }
    assert ls == g + [[c]];
  }

  lemma {:induction false} UniqueSameLine(cs: seq<RawChar>, ls: seq<seq<RawChar>>)
    requires Grouping(cs, ls) && cs != [] && ls != [] && |ls[|ls| - 1]| > 1
    ensures ls == Group(cs)
    decreases |cs|, 0
  {
    var init := cs[..|cs| - 1];
    var c := cs[|cs| - 1];
    var n := |ls| - 1;
    var l := ls[n];
    var l' := l[..|l| - 1];
    GroupingInit(cs, ls);
    GroupingUnique(init, ls[..n] + [l']);
    var g := Group(init);
    assert g[|g| - 1] == l' && g[..|g| - 1] == ls[..n];
    assert Joins(l[|l| - 2], l[|l| - 1]);
    assert l' + [c] == l;
    assert ls == g[..|g| - 1] + [g[|g| - 1] + [c]];
  }

  /** Every line's characters in `x` order, spaces dropped. */
  function DropSpaces(s: seq<RawChar>): (r: seq<RawChar>)
    ensures |r| <= |s|
  {
    if s == [] then []
    else DropSpaces(s[..|s| - 1]) + (if IsSpace(s[|s| - 1].c) then [] else [s[|s| - 1]])
  }

  lemma {:induction false} DropSpacesMembers(s: seq<RawChar>, x: RawChar)
    ensures x in DropSpaces(s) <==> x in s && !IsSpace(x.c)
  {
    if s != [] {
      var init := s[..|s| - 1];
      DropSpacesMembers(init, x);
      assert s == init + [s[|s| - 1]];
    }
  }

  lemma {:induction false} DropSpacesSorted(s: seq<RawChar>)
    requires Sorting.SortedBy(s, XKey)
    ensures Sorting.SortedBy(DropSpaces(s), XKey)
  {
    if s != [] {
      var init := s[..|s| - 1];
      var last := s[|s| - 1];
      var d := DropSpaces(init);
      DropSpacesSorted(init);
      if !IsSpace(last.c) {
        forall k | 0 <= k < |d| ensures Sorting.KeyLeq(XKey(d[k]), XKey(last)) {
          DropSpacesMembers(init, d[k]);
          var m :| 0 <= m < |init| && init[m] == d[k];
          assert s[m] == init[m];
        }
        var r := d + [last];
        forall a, b | 0 <= a < b < |r| ensures Sorting.KeyLeq(XKey(r[a]), XKey(r[b])) {
          if b < |d| { assert r[a] == d[a] && r[b] == d[b]; }
        }
      }
    }
  }

  /** One line as the extractor reads it. */
  function LineOrder(line: seq<RawChar>): seq<RawChar> {
    DropSpaces(Sorting.SortByKey(line, XKey))
  }

  /** A line reads left to right and holds exactly its non-space characters. */
  lemma LineOrderSpec(line: seq<RawChar>, x: RawChar)
    ensures Sorting.SortedBy(LineOrder(line), XKey)
    ensures x in LineOrder(line) <==> x in line && !IsSpace(x.c)
  {
    var sorted := Sorting.SortByKey(line, XKey);
    DropSpacesSorted(sorted);
    DropSpacesMembers(sorted, x);
    assert x in sorted <==> x in multiset(sorted);
    assert x in line <==> x in multiset(line);
  }

  // ---------------------------------------------------------------------
  // Overprint removal
  // ---------------------------------------------------------------------

  function Distance(a: real, b: real): real { if a >= b then a - b else b - a }

  /** `c` repeats the character `last` in nearly the same place. */
  predicate Overprints(last: RawChar, c: RawChar) {
    c.c == last.c && Distance(c.box.x0, last.box.x0) < OverprintGap
  }

  /** The de-duplication loop: each character is compared with the last one
      kept, across line ends. */
  function Dedup(cs: seq<RawChar>): (r: seq<RawChar>)
    ensures |r| <= |cs|
    ensures r == [] <==> cs == []
  {
    if cs == [] then []
    else
      var d := Dedup(cs[..|cs| - 1]);
      var c := cs[|cs| - 1];
      if d != [] && Overprints(LastOf(d), c) then d else d + [c]
  }

  predicate NoOverprint(s: seq<RawChar>) {
    forall k | 0 < k < |s| :: !Overprints(s[k - 1], s[k])
  }

  /** The kept characters come from the input, and no kept character is an
      overprint of the one kept before it. */
  lemma {:induction false} DedupSpec(cs: seq<RawChar>)
    ensures NoOverprint(Dedup(cs))
    ensures forall x | x in Dedup(cs) :: x in cs
  {
    if cs != [] {
      var init := cs[..|cs| - 1];
      DedupSpec(init);
      var d := Dedup(init);
      var c := cs[|cs| - 1];
      if !(d != [] && Overprints(LastOf(d), c)) {
        var r := d + [c];
        forall k | 0 < k < |r| ensures !Overprints(r[k - 1], r[k]) {
          if k < |d| { assert r[k - 1] == d[k - 1] && r[k] == d[k]; }
        }
      }
      forall x | x in Dedup(cs) ensures x in cs {
        if x != c { assert x in init; }
      }
    }
  }

  /** Removing overprints twice removes nothing more: a sequence without
      overprints is left as it is. */
  lemma {:induction false} DedupKeeps(cs: seq<RawChar>)
    requires NoOverprint(cs)
    ensures Dedup(cs) == cs
  {
    if cs != [] {
      var init := cs[..|cs| - 1];
      assert NoOverprint(init) by {
        forall k | 0 < k < |init| ensures !Overprints(init[k - 1], init[k]) {
          assert init[k - 1] == cs[k - 1] && init[k] == cs[k];
        }
      }
      DedupKeeps(init);
      assert cs == init + [cs[|cs| - 1]];
      if |init| > 0 {
        assert !Overprints(cs[|cs| - 2], cs[|cs| - 1]);
      }
    }
  }

  lemma DedupIdempotent(cs: seq<RawChar>)
    ensures Dedup(Dedup(cs)) == Dedup(cs)
  {
    DedupSpec(cs);
    DedupKeeps(Dedup(cs));
  }

  // ---------------------------------------------------------------------
  // extract_and_process_text
  // ---------------------------------------------------------------------

  function OnPage(page: nat, cs: seq<RawChar>): (r: seq<CharInfo>)
    ensures |r| == |cs|
    ensures forall k | 0 <= k < |cs| :: r[k] == CharInfo(cs[k].c, cs[k].box, page)
  {
    seq(|cs|, k requires 0 <= k < |cs| => CharInfo(cs[k].c, cs[k].box, page))
  }

  /** The characters in reading order before overprint removal. */
  function Ordered(raws: seq<RawChar>): seq<RawChar> {
    FlatMap(Group(Sorting.SortByKey(Admitted(raws), YKey)), LineOrder)
  }

  /** `extract_and_process_text`: the new `char_data` of a viewer. */
  function Extract(page: nat, raws: seq<RawChar>): seq<CharInfo> {
    OnPage(page, Dedup(Ordered(raws)))
  }

  lemma FlattenMembers<T>(ls: seq<seq<T>>, k: nat, x: T)
    requires k < |ls| && x in ls[k]
    ensures x in Flatten(ls)
    decreases |ls|
  {
    if k < |ls| - 1 {
      assert ls[k] == ls[..|ls| - 1][k];
      FlattenMembers(ls[..|ls| - 1], k, x);
    }
  }

  /** A character in reading order is a non-space character that passed the
      filter. */
  lemma OrderedMembers(raws: seq<RawChar>, x: RawChar)
    requires x in Ordered(raws)
    ensures x in Admitted(raws) && !IsSpace(x.c)
  {
    var sorted := Sorting.SortByKey(Admitted(raws), YKey);
    var lines := Group(sorted);
    FlatMapMembers(lines, LineOrder, x);
    var k :| 0 <= k < |lines| && x in LineOrder(lines[k]);
    LineOrderSpec(lines[k], x);
    GroupIsGrouping(sorted);
    FlattenMembers(lines, k, x);
    assert x in multiset(sorted);
  }

  /** Every extracted character is tagged with the page, is in stored form
      and not a space, came from the page's characters, and none repeats the
      one before it in nearly the same place. */
  lemma ExtractSpec(page: nat, raws: seq<RawChar>)
    ensures forall k | 0 <= k < |Extract(page, raws)| ::
      var e := Extract(page, raws)[k];
      e.page == page && Stored(e.c) && !IsSpace(e.c) && RawChar(e.c, e.box) in Admitted(raws)
    ensures forall k | 0 < k < |Extract(page, raws)| ::
      var a := Extract(page, raws)[k - 1];
      var b := Extract(page, raws)[k];
      !Overprints(RawChar(a.c, a.box), RawChar(b.c, b.box))
  {
    var d := Dedup(Ordered(raws));
    DedupSpec(Ordered(raws));
    forall k | 0 <= k < |d| ensures Stored(d[k].c) && !IsSpace(d[k].c) && d[k] in Admitted(raws) {
      OrderedMembers(raws, d[k]);
      AdmittedMembers(raws, d[k]);
    }
    forall k | 0 < k < |d| ensures !Overprints(d[k - 1], d[k]) {
    }
  }

  /** When no character passes the filter the selection yields nothing. */
  lemma ExtractNothing(page: nat, raws: seq<RawChar>)
    requires forall k | 0 <= k < |raws| :: !Accepted(raws[k].c)
    ensures Extract(page, raws) == []
  {
    if Admitted(raws) != [] {
      var x := Admitted(raws)[0];
      AdmittedMembers(raws, x);
    }
    assert Group([]) == [];
  }

  // ---------------------------------------------------------------------
  // run_comparison and add_hl
  // ---------------------------------------------------------------------

  /** A viewer's highlights: for each page, the painted rectangles. */
  type Highlights = map<nat, seq<(BBox, Rgba)>>

  /** `add_hl`: paints a character unless it is already painted in that
      colour on its page. */
  function AddHl(hl: Highlights, info: CharInfo, color: Rgba): (r: Highlights)
    ensures r.Keys == hl.Keys + {info.page}
    ensures forall p | p in hl && p != info.page :: r[p] == hl[p]
    ensures (info.box, color) in r[info.page]
  {
    var cur := if info.page in hl then hl[info.page] else [];
    if (info.box, color) in cur then hl[info.page := cur] else hl[info.page := cur + [(info.box, color)]]
  }

  /** No page lists the same painted rectangle twice. */
  predicate NoRepeats(hl: Highlights) {
    forall p, a, b | p in hl && 0 <= a < b < |hl[p]| :: hl[p][a] != hl[p][b]
  }

  lemma AddHlIdempotent(hl: Highlights, info: CharInfo, color: Rgba)
    ensures AddHl(AddHl(hl, info, color), info, color) == AddHl(hl, info, color)
  {
  }

  /** Painting adds exactly the one entry and keeps pages free of repeats. */
  lemma AddHlSpec(hl: Highlights, items: set<(nat, (BBox, Rgba))>, info: CharInfo, color: Rgba)
    requires MarksHold(hl, items) && NoRepeats(hl)
    ensures MarksHold(AddHl(hl, info, color), items + {(info.page, (info.box, color))})
    ensures NoRepeats(AddHl(hl, info, color))
  {
    var h := (info.box, color);
    var cur := if info.page in hl then hl[info.page] else [];
    if h in cur {
      assert AddHl(hl, info, color) == hl;
    } else {
      MarksAppend(hl, items, info.page, h);
      var r := AddHl(hl, info, color);
      forall p, a, b | p in r && 0 <= a < b < |r[p]| ensures r[p][a] != r[p][b] {
        if p == info.page && b == |cur| {
          assert r[p][a] == cur[a];
        }
      }
    }
  }

  /** Paints `cd[lo..hi]` in `color`. */
  function PaintRange(hl: Highlights, cd: seq<CharInfo>, lo: nat, hi: nat, color: Rgba): Highlights
    requires lo <= hi <= |cd|
    decreases hi - lo
  {
    if lo == hi then hl else PaintRange(AddHl(hl, cd[lo], color), cd, lo + 1, hi, color)
  }

  /** What painting `cd[lo..hi]` contributes. */
  function RangeItems(cd: seq<CharInfo>, lo: nat, hi: nat, color: Rgba): set<(nat, (BBox, Rgba))>
    requires lo <= hi <= |cd|
    decreases hi - lo
  {
    if lo == hi then {} else {(cd[lo].page, (cd[lo].box, color))} + RangeItems(cd, lo + 1, hi, color)
  }

  lemma {:induction false} PaintRangeSpec(hl: Highlights, items: set<(nat, (BBox, Rgba))>, cd: seq<CharInfo>,
                                          lo: nat, hi: nat, color: Rgba)
    requires lo <= hi <= |cd|
    requires MarksHold(hl, items) && NoRepeats(hl)
    ensures MarksHold(PaintRange(hl, cd, lo, hi, color), items + RangeItems(cd, lo, hi, color))
    ensures NoRepeats(PaintRange(hl, cd, lo, hi, color))
    decreases hi - lo
  {
    if lo < hi {
      var h := (cd[lo].page, (cd[lo].box, color));
      AddHlSpec(hl, items, cd[lo], color);
      PaintRangeSpec(AddHl(hl, cd[lo], color), items + {h}, cd, lo + 1, hi, color);
      assert items + {h} + RangeItems(cd, lo + 1, hi, color) == items + RangeItems(cd, lo, hi, color);
    }
  }

  /** Painting what is already painted changes nothing. */
  lemma {:induction false} PaintRangeNoop(hl: Highlights, items: set<(nat, (BBox, Rgba))>, cd: seq<CharInfo>,
                                          lo: nat, hi: nat, color: Rgba)
    requires lo <= hi <= |cd|
    requires MarksHold(hl, items) && RangeItems(cd, lo, hi, color) <= items
    ensures PaintRange(hl, cd, lo, hi, color) == hl
    decreases hi - lo
  {
    if lo < hi {
      var h := (cd[lo].box, color);
      assert (cd[lo].page, h) in items;
      assert cd[lo].page in hl && h in hl[cd[lo].page];
      assert AddHl(hl, cd[lo], color) == hl;
      PaintRangeNoop(hl, items, cd, lo + 1, hi, color);
    }
  }

  predicate PaintsFirst(op: Opcode) { op.tag == OpDelete || op.tag == OpReplace }

  predicate PaintsSecond(op: Opcode) { op.tag == OpInsert || op.tag == OpReplace }

  /** One opcode: the first document's range for delete and replace, the
      second's for insert and replace. */
  function ApplyOp(h1: Highlights, h2: Highlights, cd1: seq<CharInfo>, cd2: seq<CharInfo>, op: Opcode)
    : (Highlights, Highlights)
    requires op.i1 <= op.i2 <= |cd1| && op.j1 <= op.j2 <= |cd2|
  {
    var a := if PaintsFirst(op) then PaintRange(h1, cd1, op.i1, op.i2, FirstColor) else h1;
    var b := if PaintsSecond(op) then PaintRange(h2, cd2, op.j1, op.j2, SecondColor) else h2;
    (a, b)
  }

  function ApplyOps(h1: Highlights, h2: Highlights, cd1: seq<CharInfo>, cd2: seq<CharInfo>, ops: seq<Opcode>)
    : (Highlights, Highlights)
    requires ValidOpcodes(ops, |cd1|, |cd2|)
  {
    if ops == [] then (h1, h2)
    else
      var prev := ApplyOps(h1, h2, cd1, cd2, ops[..|ops| - 1]);
      ApplyOp(prev.0, prev.1, cd1, cd2, ops[|ops| - 1])
  }

  /** Everything the opcodes paint in the first document. */
  function FirstItems(cd1: seq<CharInfo>, ops: seq<Opcode>, n2: nat): set<(nat, (BBox, Rgba))>
    requires ValidOpcodes(ops, |cd1|, n2)
  {
    if ops == [] then {}
    else
      var op := ops[|ops| - 1];
      FirstItems(cd1, ops[..|ops| - 1], n2) + (if PaintsFirst(op) then RangeItems(cd1, op.i1, op.i2, FirstColor) else {})
  }

  /** Everything the opcodes paint in the second document. */
  function SecondItems(cd2: seq<CharInfo>, ops: seq<Opcode>, n1: nat): set<(nat, (BBox, Rgba))>
    requires ValidOpcodes(ops, n1, |cd2|)
  {
    if ops == [] then {}
    else
      var op := ops[|ops| - 1];
      SecondItems(cd2, ops[..|ops| - 1], n1) + (if PaintsSecond(op) then RangeItems(cd2, op.j1, op.j2, SecondColor) else {})
  }

  /** A viewer's `last_compared_area`: rectangles by page, drawn in the
      pale `COLOR_AREA`. */
  type Area = map<nat, seq<BBox>>

  /** `last_compared_area` after a comparison: cleared, then holding just
      the pending selection rectangle `(page, rect)`, if there is one. */
  function CompareArea(pending: Option<(nat, BBox)>): (a: Area)
    ensures forall p | p in a :: pending.Some? && p == pending.value.0
    ensures pending.Some? ==> pending.value.0 in a && a[pending.value.0] == [pending.value.1]
  {
    if pending.None? then map[] else map[pending.value.0 := [pending.value.1]]
  }

  /** The outcome of pressing the compare button. */
  datatype Outcome = NeedSelections | Compared(h1: Highlights, h2: Highlights, a1: Area, a2: Area)

  /** `run_comparison`: both selections must hold characters; then each
      viewer's compared area becomes its pending selection, and the opcodes
      of the two joined character strings paint the differences. Existing
      highlights are kept. */
  function RunComparison(h1: Highlights, h2: Highlights, cd1: seq<CharInfo>, cd2: seq<CharInfo>, ops: seq<Opcode>,
                         pending1: Option<(nat, BBox)>, pending2: Option<(nat, BBox)>)
    : (r: Outcome)
    requires ValidOpcodes(ops, |cd1|, |cd2|)
    ensures r.NeedSelections? <==> cd1 == [] || cd2 == []
    ensures r.Compared? ==> r.a1 == CompareArea(pending1) && r.a2 == CompareArea(pending2)
  {
    if cd1 == [] || cd2 == [] then NeedSelections
    else
      var hs := ApplyOps(h1, h2, cd1, cd2, ops);
      Compared(hs.0, hs.1, CompareArea(pending1), CompareArea(pending2))
  }

  lemma ValidPrefix(ops: seq<Opcode>, n: nat, m: nat)
    requires ValidOpcodes(ops, n, m) && ops != []
    ensures ValidOpcodes(ops[..|ops| - 1], n, m)
  {
  }

  lemma {:induction false} ApplyOpsSpec(h1: Highlights, h2: Highlights, items1: set<(nat, (BBox, Rgba))>,
                                        items2: set<(nat, (BBox, Rgba))>,
                                        cd1: seq<CharInfo>, cd2: seq<CharInfo>, ops: seq<Opcode>)
    requires ValidOpcodes(ops, |cd1|, |cd2|)
    requires MarksHold(h1, items1) && NoRepeats(h1) && MarksHold(h2, items2) && NoRepeats(h2)
    ensures var r := ApplyOps(h1, h2, cd1, cd2, ops);
      MarksHold(r.0, items1 + FirstItems(cd1, ops, |cd2|)) && NoRepeats(r.0)
      && MarksHold(r.1, items2 + SecondItems(cd2, ops, |cd1|)) && NoRepeats(r.1)
  {
    if ops != [] {
      var init := ops[..|ops| - 1];
      var op := ops[|ops| - 1];
      ValidPrefix(ops, |cd1|, |cd2|);
      ApplyOpsSpec(h1, h2, items1, items2, cd1, cd2, init);
      var prev := ApplyOps(h1, h2, cd1, cd2, init);
      var f := items1 + FirstItems(cd1, init, |cd2|);
      var s := items2 + SecondItems(cd2, init, |cd1|);
      if PaintsFirst(op) {
        PaintRangeSpec(prev.0, f, cd1, op.i1, op.i2, FirstColor);
        assert f + RangeItems(cd1, op.i1, op.i2, FirstColor) == items1 + FirstItems(cd1, ops, |cd2|);
      } else {
        assert f == items1 + FirstItems(cd1, ops, |cd2|);
      }
      if PaintsSecond(op) {
        PaintRangeSpec(prev.1, s, cd2, op.j1, op.j2, SecondColor);
        assert s + RangeItems(cd2, op.j1, op.j2, SecondColor) == items2 + SecondItems(cd2, ops, |cd1|);
      } else {
        assert s == items2 + SecondItems(cd2, ops, |cd1|);
      }
    }
  }

  /** After a comparison each viewer shows exactly what it showed before
      plus every character of a deleted, inserted or replaced range, in its
      document's colour, on that character's page, and no page lists a
      rectangle twice. */
  lemma RunComparisonSpec(h1: Highlights, h2: Highlights, items1: set<(nat, (BBox, Rgba))>,
                          items2: set<(nat, (BBox, Rgba))>,
                          cd1: seq<CharInfo>, cd2: seq<CharInfo>, ops: seq<Opcode>,
                          pending1: Option<(nat, BBox)>, pending2: Option<(nat, BBox)>)
    requires ValidOpcodes(ops, |cd1|, |cd2|) && cd1 != [] && cd2 != []
    requires MarksHold(h1, items1) && NoRepeats(h1) && MarksHold(h2, items2) && NoRepeats(h2)
    ensures var r := RunComparison(h1, h2, cd1, cd2, ops, pending1, pending2);
      r.Compared?
      && MarksHold(r.h1, items1 + FirstItems(cd1, ops, |cd2|)) && NoRepeats(r.h1)
      && MarksHold(r.h2, items2 + SecondItems(cd2, ops, |cd1|)) && NoRepeats(r.h2)
  {
    ApplyOpsSpec(h1, h2, items1, items2, cd1, cd2, ops);
  }

  lemma {:induction false} ApplyOpsNoop(h1: Highlights, h2: Highlights, items1: set<(nat, (BBox, Rgba))>,
                                        items2: set<(nat, (BBox, Rgba))>,
                                        cd1: seq<CharInfo>, cd2: seq<CharInfo>, ops: seq<Opcode>)
    requires ValidOpcodes(ops, |cd1|, |cd2|)
    requires MarksHold(h1, items1) && MarksHold(h2, items2)
    requires FirstItems(cd1, ops, |cd2|) <= items1 && SecondItems(cd2, ops, |cd1|) <= items2
    ensures ApplyOps(h1, h2, cd1, cd2, ops) == (h1, h2)
  {
    if ops != [] {
      var init := ops[..|ops| - 1];
      var op := ops[|ops| - 1];
      ValidPrefix(ops, |cd1|, |cd2|);
      ApplyOpsNoop(h1, h2, items1, items2, cd1, cd2, init);
      if PaintsFirst(op) {
        PaintRangeNoop(h1, items1, cd1, op.i1, op.i2, FirstColor);
      }
      if PaintsSecond(op) {
        PaintRangeNoop(h2, items2, cd2, op.j1, op.j2, SecondColor);
      }
    }
  }

  /** Comparing the same selections again paints nothing new. */
  lemma RunComparisonTwice(h1: Highlights, h2: Highlights, items1: set<(nat, (BBox, Rgba))>,
                           items2: set<(nat, (BBox, Rgba))>,
                           cd1: seq<CharInfo>, cd2: seq<CharInfo>, ops: seq<Opcode>,
                          pending1: Option<(nat, BBox)>, pending2: Option<(nat, BBox)>)
    requires ValidOpcodes(ops, |cd1|, |cd2|) && cd1 != [] && cd2 != []
    requires MarksHold(h1, items1) && NoRepeats(h1) && MarksHold(h2, items2) && NoRepeats(h2)
    ensures var r := RunComparison(h1, h2, cd1, cd2, ops, pending1, pending2);
      r.Compared? && RunComparison(r.h1, r.h2, cd1, cd2, ops, pending1, pending2) == r
  {
    var r := RunComparison(h1, h2, cd1, cd2, ops, pending1, pending2);
    RunComparisonSpec(h1, h2, items1, items2, cd1, cd2, ops, pending1, pending2);
    ApplyOpsNoop(r.h1, r.h2, items1 + FirstItems(cd1, ops, |cd2|), items2 + SecondItems(cd2, ops, |cd1|), cd1, cd2, ops);
  }
}
