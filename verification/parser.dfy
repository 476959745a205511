/** The section parser of the insurance-plan comparator: keep the body lines
    of a page, sort them by position, fold them into ◆ major sections, ■
    minor sections and standalone text, and flatten the sections back into
    tagged blocks for comparison. PyMuPDF's line records are the input. */
module PdfParser {
  import opened Basics
  import opened Text
  import Sorting

  /** Lines above this y belong to the running header. */
  const HeaderYMax: real := 85.0
  /** Lines below this y belong to the running footer. */
  const FooterYMin: real := 750.0
  /** Lines whose y differs by at most this much share a row. */
  const SameLineThreshold: real := 5.0

  const MajorMark: char := '◆'
  const MinorMark: char := '■'

  /** One line of a text block: its spans' text joined, and its rectangle. */
  datatype RawLine = RawLine(text: string, box: BBox)

  /** A line the parser keeps: stripped, non-empty text between header and
      footer. Its position is the top-left corner of its rectangle. */
  datatype Line = Line(text: string, box: BBox)

  predicate InBody(y: real) {
    !(y < HeaderYMax || y > FooterYMin)
  }

  // ---------------------------------------------------------------------
  // _parse_page: filter and sort
  // ---------------------------------------------------------------------

  /** `raw` yields the kept line `l`: its stripped text is non-empty and it
      lies between header and footer. */
  predicate Yields(raw: RawLine, l: Line) {
    Strip(raw.text) != [] && InBody(raw.box.y0) && l == Line(Strip(raw.text), raw.box)
  }

  /** The line kept for one raw line, if any. */
  function KeepLine(raw: RawLine): (r: seq<Line>)
    ensures |r| <= 1
  {
    var t := Strip(raw.text);
    if t == [] || !InBody(raw.box.y0) then [] else [Line(t, raw.box)]
  }

  lemma KeepLineYields(raw: RawLine, l: Line)
    ensures l in KeepLine(raw) <==> Yields(raw, l)
  {
  }

  /** The kept lines in extraction order. */
  function KeepLines(raws: seq<RawLine>): seq<Line> {
    FlatMap(raws, KeepLine)
  }

  /** A line is kept exactly when some raw line yields it. */
  lemma KeepLinesMembers(raws: seq<RawLine>, l: Line)
    ensures l in KeepLines(raws) <==> exists k | 0 <= k < |raws| :: Yields(raws[k], l)
  {
    FlatMapMembers(raws, KeepLine, l);
    forall k | 0 <= k < |raws| ensures l in KeepLine(raws[k]) <==> Yields(raws[k], l) {
      KeepLineYields(raws[k], l);
    }
  }

  /** Every kept line has text and lies in the body of the page. */
  lemma KeptLinesInBody(raws: seq<RawLine>, l: Line)
    requires l in KeepLines(raws)
    ensures l.text != [] && InBody(l.box.y0)
  {
    KeepLinesMembers(raws, l);
  }

  function LineKey(l: Line): (real, real) {
    (l.box.y0, l.box.x0)
  }

  /** The kept lines sorted by `(y, x)`. */
  function PageLines(raws: seq<RawLine>): (r: seq<Line>)
    ensures Sorting.SortedBy(r, LineKey)
    ensures multiset(r) == multiset(KeepLines(raws))
    ensures |r| == |KeepLines(raws)|
  {
    Sorting.SortByKey(KeepLines(raws), LineKey)
  }

  // ---------------------------------------------------------------------
  // _structure_sections
  // ---------------------------------------------------------------------

  /** A body line routed into a section. */
  datatype Item = Item(text: string, box: BBox, page: nat)

  /** A ■ section: its title, the title joined with the texts on its row,
      and the body lines that follow it. */
  datatype Minor = Minor(title: string, description: string, page: nat, box: BBox, content: seq<Item>)

  /** A ◆ section: its title, the body lines that follow it directly, and
      the ■ sections under it. */
  datatype Major = Major(title: string, page: nat, box: BBox, subsections: seq<Minor>, content: seq<Item>)

  datatype Section =
    | Standalone(item: Item)
    | MajorSection(major: Major)
    | MinorSection(minor: Minor)

  /** The fold's state: the finished sections and the open ones. An open ■
      section is not yet part of its ◆ section's list. */
  datatype Builder = Builder(done: seq<Section>, major: Option<Major>, minor: Option<Minor>)

  const Start: Builder := Builder([], None, None)

  /** Two lines on the same row. */
  predicate SameRow(a: Line, b: Line) {
    -SameLineThreshold <= b.box.y0 - a.box.y0 <= SameLineThreshold
  }

  /** The first position from `j` on that is not on the row of line `i`. */
  function RowEnd(lines: seq<Line>, i: nat, j: nat): (r: nat)
    requires i < j <= |lines|
    ensures j <= r <= |lines|
    ensures forall k | j <= k < r :: SameRow(lines[i], lines[k])
    ensures r < |lines| ==> !SameRow(lines[i], lines[r])
    decreases |lines| - j
  {
    if j < |lines| && SameRow(lines[i], lines[j]) then RowEnd(lines, i, j + 1) else j
  }

  /** The texts of `lines[lo..hi]`, in order. */
  function RowTexts(lines: seq<Line>, lo: nat, hi: nat): (r: seq<string>)
    requires lo <= hi <= |lines|
    ensures |r| == hi - lo
    ensures forall k | 0 <= k < |r| :: r[k] == lines[lo + k].text
  {
    seq(hi - lo, k requires 0 <= k < hi - lo => lines[lo + k].text)
  }

  function MajorTitle(text: string): string { Strip(RemoveChar(text, MajorMark)) }

  function MinorTitle(text: string): string { Strip(RemoveChar(text, MinorMark)) }

  /** The ■ line's title joined with the texts of the lines it absorbs. */
  function Description(lines: seq<Line>, i: nat, e: nat): string
    requires i < e <= |lines|
  {
    Join(" ", [MinorTitle(lines[i].text)] + RowTexts(lines, i + 1, e))
  }

  /** The ◆ section a ◆ line opens. */
  function MajorAt(l: Line, page: nat): Major {
    Major(MajorTitle(l.text), page, l.box, [], [])
  }

  /** The ■ section the ■ line `lines[i]` opens. */
  function MinorAt(lines: seq<Line>, i: nat, page: nat): Minor
    requires i < |lines|
  {
    Minor(MinorTitle(lines[i].text), Description(lines, i, RowEnd(lines, i, i + 1)), page, lines[i].box, [])
  }

  /** Attaches the open ■ section to its ◆ section, or to the list when
      there is none. */
  function CloseMinor(b: Builder): (r: Builder)
    ensures r.minor.None?
  {
    match b.minor
    case None => b
    case Some(m) =>
      if b.major.Some? then
        var g := b.major.value;
        b.(major := Some(g.(subsections := g.subsections + [m])), minor := None)
      else b.(done := b.done + [MinorSection(m)], minor := None)
  }

  /** The finished sections: the open ones closed. */
  function Finish(b: Builder): seq<Section> {
    var c := CloseMinor(b);
    c.done + (if c.major.Some? then [MajorSection(c.major.value)] else [])
  }

  /** A ◆ line closes everything open and opens a new ◆ section. */
  function OpenMajor(b: Builder, g: Major): Builder {
    Builder(Finish(b), Some(g), None)
  }

  /** A ■ line closes the open ■ section and opens a new one. */
  function OpenMinor(b: Builder, m: Minor): Builder {
    CloseMinor(b).(minor := Some(m))
  }

  /** A body line goes to the open ■ section, else the open ◆ section,
      else becomes a standalone section. */
  function AddBody(b: Builder, it: Item): Builder {
    if b.minor.Some? then
      var m := b.minor.value;
      b.(minor := Some(m.(content := m.content + [it])))
    else if b.major.Some? then
      var g := b.major.value;
      b.(major := Some(g.(content := g.content + [it])))
    else b.(done := b.done + [Standalone(it)])
  }

  /** The loop of `_structure_sections` from line `i` on. */
  function StructureFrom(lines: seq<Line>, page: nat, i: nat, b: Builder): seq<Section>
    requires i <= |lines|
    decreases |lines| - i
  {
    if i == |lines| then Finish(b)
    else if MajorMark in lines[i].text then
      StructureFrom(lines, page, i + 1, OpenMajor(b, MajorAt(lines[i], page)))
    else if MinorMark in lines[i].text then
      StructureFrom(lines, page, RowEnd(lines, i, i + 1), OpenMinor(b, MinorAt(lines, i, page)))
    else
      StructureFrom(lines, page, i + 1, AddBody(b, Item(lines[i].text, lines[i].box, page)))
  }

  /** `_structure_sections(lines, page)`. */
  function StructureSections(lines: seq<Line>, page: nat): seq<Section> {
    StructureFrom(lines, page, 0, Start)
  }

  // ---------------------------------------------------------------------
  // _flatten_section and get_all_text_blocks
  // ---------------------------------------------------------------------

  datatype Tag = StandaloneTag | MajorTitleTag | MajorContentTag | MinorTitleTag | MinorContentTag

  /** A block handed to the comparator. */
  datatype Block = Block(text: string, box: BBox, page: nat, tag: Tag, sectionTitle: Option<string>)

  function ContentBlocks(items: seq<Item>, tag: Tag, title: string): (r: seq<Block>)
    ensures |r| == |items|
    ensures forall k | 0 <= k < |items| ::
      r[k] == Block(items[k].text, items[k].box, items[k].page, tag, Some(title))
  {
    seq(|items|, k requires 0 <= k < |items| => Block(items[k].text, items[k].box, items[k].page, tag, Some(title)))
  }

  function FlattenMinor(m: Minor): seq<Block> {
    [Block(m.description, m.box, m.page, MinorTitleTag, Some(m.title))]
      + ContentBlocks(m.content, MinorContentTag, m.title)
  }

  function FlattenMinors(ms: seq<Minor>): seq<Block> {
    if ms == [] then [] else FlattenMinors(ms[..|ms| - 1]) + FlattenMinor(ms[|ms| - 1])
  }

  function FlattenMajor(g: Major): seq<Block> {
    [Block(g.title, g.box, g.page, MajorTitleTag, None)]
      + ContentBlocks(g.content, MajorContentTag, g.title)
      + FlattenMinors(g.subsections)
  }

  /** `_flatten_section`. */
  function FlattenSection(s: Section): seq<Block> {
    match s
    case Standalone(it) => [Block(it.text, it.box, it.page, StandaloneTag, None)]
    case MajorSection(g) => FlattenMajor(g)
    case MinorSection(m) => FlattenMinor(m)
  }

  function FlattenSections(ss: seq<Section>): seq<Block> {
    if ss == [] then [] else FlattenSections(ss[..|ss| - 1]) + FlattenSection(ss[|ss| - 1])
  }

  /** What a block says about where its text came from. */
  function Origin(b: Block): (string, BBox, nat) { (b.text, b.box, b.page) }

  function Origins(bs: seq<Block>): (r: seq<(string, BBox, nat)>)
    ensures |r| == |bs|
    ensures forall k | 0 <= k < |bs| :: r[k] == Origin(bs[k])
  {
    seq(|bs|, k requires 0 <= k < |bs| => Origin(bs[k]))
  }

  /** What the lines from `i` on contribute to the flattened page, in order:
      a ◆ line its title, a ■ line its description (which takes in the
      lines on its row), any other line its own text; each with the line's
      rectangle and the page. */
  function Contributions(lines: seq<Line>, page: nat, i: nat): seq<(string, BBox, nat)>
    requires i <= |lines|
    decreases |lines| - i
  {
    if i == |lines| then []
    else if MajorMark in lines[i].text then
      [(MajorTitle(lines[i].text), lines[i].box, page)] + Contributions(lines, page, i + 1)
    else if MinorMark in lines[i].text then
      var e := RowEnd(lines, i, i + 1);
      [(Description(lines, i, e), lines[i].box, page)] + Contributions(lines, page, e)
    else [(lines[i].text, lines[i].box, page)] + Contributions(lines, page, i + 1)
  }

  /** The titles of the sections open while the lines are read. */
  datatype Context = Context(major: Option<string>, minor: Option<string>)

  /** The block a body line becomes: content of the open ■ section, else
      content of the open ◆ section, else a standalone block. */
  function BodyBlock(it: Item, c: Context): Block {
    if c.minor.Some? then Block(it.text, it.box, it.page, MinorContentTag, c.minor)
    else if c.major.Some? then Block(it.text, it.box, it.page, MajorContentTag, c.major)
    else Block(it.text, it.box, it.page, StandaloneTag, None)
  }

  /** The blocks the lines from `i` on flatten to, read straight off the
      lines: a ◆ line gives its title block and opens a ◆ context, a ■ line
      gives its description block and opens a ■ context under the current
      ◆ title, any other line a body block of the current context. */
  function PageBlocks(lines: seq<Line>, page: nat, i: nat, c: Context): seq<Block>
    requires i <= |lines|
    decreases |lines| - i
  {
    if i == |lines| then []
    else if MajorMark in lines[i].text then
      var t := MajorTitle(lines[i].text);
      [Block(t, lines[i].box, page, MajorTitleTag, None)] + PageBlocks(lines, page, i + 1, Context(Some(t), None))
    else if MinorMark in lines[i].text then
      var e := RowEnd(lines, i, i + 1);
      var t := MinorTitle(lines[i].text);
      [Block(Description(lines, i, e), lines[i].box, page, MinorTitleTag, Some(t))]
        + PageBlocks(lines, page, e, c.(minor := Some(t)))
    else [BodyBlock(Item(lines[i].text, lines[i].box, page), c)] + PageBlocks(lines, page, i + 1, c)
  }

  // ---------------------------------------------------------------------
  // Flattening the fold's result follows the lines
  // ---------------------------------------------------------------------

  /** The blocks the builder stands for: finished sections, then the open
      ◆ section, then the open ■ section. */
  function Pending(b: Builder): seq<Block> {
    FlattenSections(b.done)
      + (if b.major.Some? then FlattenMajor(b.major.value) else [])
      + (if b.minor.Some? then FlattenMinor(b.minor.value) else [])
  }

  /** The titles of the builder's open sections. */
  function ContextOf(b: Builder): Context {
    Context(if b.major.Some? then Some(b.major.value.title) else None,
            if b.minor.Some? then Some(b.minor.value.title) else None)
  }

  /** An open ◆ section without an open ■ section has no ■ sections yet. */
  predicate BuilderOk(b: Builder) {
    b.minor.None? && b.major.Some? ==> b.major.value.subsections == []
  }

  lemma OriginsAppend(x: seq<Block>, y: seq<Block>)
    ensures Origins(x + y) == Origins(x) + Origins(y)
  {
  }

  lemma SectionsSnoc(ss: seq<Section>, s: Section)
    ensures FlattenSections(ss + [s]) == FlattenSections(ss) + FlattenSection(s)
  {
    assert (ss + [s])[..|ss|] == ss;
  }

  lemma MinorsSnoc(ms: seq<Minor>, m: Minor)
    ensures FlattenMinors(ms + [m]) == FlattenMinors(ms) + FlattenMinor(m)
  {
    assert (ms + [m])[..|ms|] == ms;
  }

  lemma ContentSnoc(items: seq<Item>, it: Item, tag: Tag, title: string)
    ensures ContentBlocks(items + [it], tag, title)
         == ContentBlocks(items, tag, title) + [Block(it.text, it.box, it.page, tag, Some(title))]
  {
  }

  lemma CloseMinorPending(b: Builder)
    ensures Pending(CloseMinor(b)) == Pending(b)
  {
    if b.minor.Some? {
      var m := b.minor.value;
      if b.major.Some? {
        var g := b.major.value;
        MinorsSnoc(g.subsections, m);
        var h := [Block(g.title, g.box, g.page, MajorTitleTag, None)] + ContentBlocks(g.content, MajorContentTag, g.title);
        assert FlattenMajor(g.(subsections := g.subsections + [m])) == h + FlattenMinors(g.subsections + [m]);
        assert (h + FlattenMinors(g.subsections)) + FlattenMinor(m) == h + (FlattenMinors(g.subsections) + FlattenMinor(m));
      } else {
        SectionsSnoc(b.done, MinorSection(m));
      }
    }
  }

  lemma FinishPending(b: Builder)
    ensures FlattenSections(Finish(b)) == Pending(b)
  {
    var c := CloseMinor(b);
    CloseMinorPending(b);
    if c.major.Some? {
      SectionsSnoc(c.done, MajorSection(c.major.value));
    } else {
      assert c.done + [] == c.done;
    }
  }

  lemma OpenMajorPending(b: Builder, g: Major)
    requires g.subsections == [] && g.content == []
    ensures Pending(OpenMajor(b, g)) == Pending(b) + [Block(g.title, g.box, g.page, MajorTitleTag, None)]
    ensures BuilderOk(OpenMajor(b, g))
  {
    FinishPending(b);
    assert FlattenMajor(g) == [Block(g.title, g.box, g.page, MajorTitleTag, None)];
  }

  lemma OpenMinorPending(b: Builder, m: Minor)
    requires m.content == []
    ensures Pending(OpenMinor(b, m)) == Pending(b) + [Block(m.description, m.box, m.page, MinorTitleTag, Some(m.title))]
    ensures BuilderOk(OpenMinor(b, m))
  {
    CloseMinorPending(b);
    assert FlattenMinor(m) == [Block(m.description, m.box, m.page, MinorTitleTag, Some(m.title))];
  }

  /** Routing a body line appends exactly one block: `minor_content` under
      the open ■ section's title, else `major_content` under the open ◆
      section's title, else a standalone block without a title. It carries
      the line's text, rectangle and page, and the open titles stay. */
  lemma AddBodyPending(b: Builder, it: Item)
    requires BuilderOk(b)
    ensures BuilderOk(AddBody(b, it))
    ensures ContextOf(AddBody(b, it)) == ContextOf(b)
    ensures Pending(AddBody(b, it)) == Pending(b) + [BodyBlock(it, ContextOf(b))]
    ensures b.minor.Some? ==>
      BodyBlock(it, ContextOf(b)) == Block(it.text, it.box, it.page, MinorContentTag, Some(b.minor.value.title))
    ensures b.minor.None? && b.major.Some? ==>
      BodyBlock(it, ContextOf(b)) == Block(it.text, it.box, it.page, MajorContentTag, Some(b.major.value.title))
    ensures b.minor.None? && b.major.None? ==>
      BodyBlock(it, ContextOf(b)) == Block(it.text, it.box, it.page, StandaloneTag, None)
    ensures Origins(Pending(AddBody(b, it))) == Origins(Pending(b)) + [(it.text, it.box, it.page)]
  {
    var r := AddBody(b, it);
    var blk := BodyBlock(it, ContextOf(b));
    if b.minor.Some? {
      var m := b.minor.value;
      ContentSnoc(m.content, it, MinorContentTag, m.title);
      assert FlattenMinor(r.minor.value) == FlattenMinor(m) + [blk];
      assert Pending(r) == Pending(b) + [blk];
    } else if b.major.Some? {
      var g := b.major.value;
      ContentSnoc(g.content, it, MajorContentTag, g.title);
      assert FlattenMinors(g.subsections) == [];
      assert FlattenMajor(r.major.value) == FlattenMajor(g) + [blk];
      assert Pending(r) == Pending(b) + [blk];
    } else {
      SectionsSnoc(b.done, Standalone(it));
      assert Pending(r) == Pending(b) + [blk];
    }
    OriginsAppend(Pending(b), [blk]);
  }

  lemma PrefixEmpty<T>(whole: seq<T>, pre: seq<T>, rest: seq<T>)
    requires whole == pre + rest && pre == []
    ensures whole == rest
  {
  }

  lemma ShiftOne<T>(whole: seq<T>, next: seq<T>, rest: seq<T>, pb: seq<T>, x: T, tail: seq<T>)
    requires whole == next + rest && next == pb + [x] && tail == [x] + rest
    ensures whole == pb + tail
  {
  }

  lemma OpenMajorOrigins(b: Builder, l: Line, page: nat)
    ensures Origins(Pending(OpenMajor(b, MajorAt(l, page)))) == Origins(Pending(b)) + [(MajorTitle(l.text), l.box, page)]
    ensures BuilderOk(OpenMajor(b, MajorAt(l, page)))
  {
    var g := MajorAt(l, page);
    var blk := Block(g.title, g.box, g.page, MajorTitleTag, None);
    OpenMajorPending(b, g);
    OriginsAppend(Pending(b), [blk]);
    assert Origins([blk]) == [Origin(blk)];
  }

  lemma OpenMinorOrigins(b: Builder, lines: seq<Line>, i: nat, page: nat)
    requires i < |lines|
    ensures Origins(Pending(OpenMinor(b, MinorAt(lines, i, page))))
         == Origins(Pending(b)) + [(Description(lines, i, RowEnd(lines, i, i + 1)), lines[i].box, page)]
    ensures BuilderOk(OpenMinor(b, MinorAt(lines, i, page)))
  {
    var m := MinorAt(lines, i, page);
    var blk := Block(m.description, m.box, m.page, MinorTitleTag, Some(m.title));
    OpenMinorPending(b, m);
    OriginsAppend(Pending(b), [blk]);
    assert Origins([blk]) == [Origin(blk)];
  }

  /** Flattening the sections built from line `i` on gives what the builder
      stands for followed by the lines' contributions. */
  lemma {:induction false} StructureFromFlat(lines: seq<Line>, page: nat, i: nat, b: Builder)
    requires i <= |lines| && BuilderOk(b)
    ensures Origins(FlattenSections(StructureFrom(lines, page, i, b)))
         == Origins(Pending(b)) + Contributions(lines, page, i)
    decreases |lines| - i, 1
  {
    if i == |lines| {
      FinishPending(b);
    } else if MajorMark in lines[i].text {
      var b' := OpenMajor(b, MajorAt(lines[i], page));
      OpenMajorOrigins(b, lines[i], page);
      LineStep(lines, page, i, b, i + 1, b', (MajorTitle(lines[i].text), lines[i].box, page));
    } else if MinorMark in lines[i].text {
      var e := RowEnd(lines, i, i + 1);
      var b' := OpenMinor(b, MinorAt(lines, i, page));
      OpenMinorOrigins(b, lines, i, page);
      LineStep(lines, page, i, b, e, b', (Description(lines, i, e), lines[i].box, page));
    } else {
      var it := Item(lines[i].text, lines[i].box, page);
      AddBodyPending(b, it);
      LineStep(lines, page, i, b, i + 1, AddBody(b, it), (lines[i].text, lines[i].box, page));
    }
  }

  /** One line's step: the fold moves to `b'` and line `next`, and the line
      contributes `x`. */
  lemma {:induction false} LineStep(lines: seq<Line>, page: nat, i: nat, b: Builder, next: nat, b': Builder,
                                    x: (string, BBox, nat))
    requires i < next <= |lines| && BuilderOk(b')
    requires StructureFrom(lines, page, i, b) == StructureFrom(lines, page, next, b')
    requires Contributions(lines, page, i) == [x] + Contributions(lines, page, next)
    requires Origins(Pending(b')) == Origins(Pending(b)) + [x]
    ensures Origins(FlattenSections(StructureFrom(lines, page, i, b)))
         == Origins(Pending(b)) + Contributions(lines, page, i)
    decreases |lines| - i, 0
  {
    StructureFromFlat(lines, page, next, b');
    ShiftOne(Origins(FlattenSections(StructureFrom(lines, page, next, b'))), Origins(Pending(b')),
      Contributions(lines, page, next), Origins(Pending(b)), x, Contributions(lines, page, i));
  }

  /** The flattened sections of a page are its lines in order: each line is
      used once, the lines on a ■ line's row are folded into its
      description, and every block keeps its line's rectangle and the page. */
  lemma StructureFlattens(lines: seq<Line>, page: nat)
    ensures Origins(FlattenSections(StructureSections(lines, page))) == Contributions(lines, page, 0)
  {
    StructureFromFlat(lines, page, 0, Start);
    assert Pending(Start) == [];
  }

  /** One line's step on whole blocks: the fold moves to `b'` and line
      `next`, and the line gives block `x`. */
  lemma {:induction false} BlockStep(lines: seq<Line>, page: nat, i: nat, b: Builder, next: nat, b': Builder, x: Block)
    requires i < next <= |lines| && BuilderOk(b')
    requires StructureFrom(lines, page, i, b) == StructureFrom(lines, page, next, b')
    requires PageBlocks(lines, page, i, ContextOf(b)) == [x] + PageBlocks(lines, page, next, ContextOf(b'))
    requires Pending(b') == Pending(b) + [x]
    ensures FlattenSections(StructureFrom(lines, page, i, b)) == Pending(b) + PageBlocks(lines, page, i, ContextOf(b))
    decreases |lines| - i, 0
  {
    StructureFromBlocks(lines, page, next, b');
    ShiftOne(FlattenSections(StructureFrom(lines, page, next, b')), Pending(b'),
      PageBlocks(lines, page, next, ContextOf(b')), Pending(b), x, PageBlocks(lines, page, i, ContextOf(b)));
  }

  /** Flattening the sections built from line `i` on gives what the builder
      stands for followed by the lines' blocks under the builder's open
      titles. */
  lemma {:induction false} StructureFromBlocks(lines: seq<Line>, page: nat, i: nat, b: Builder)
    requires i <= |lines| && BuilderOk(b)
    ensures FlattenSections(StructureFrom(lines, page, i, b)) == Pending(b) + PageBlocks(lines, page, i, ContextOf(b))
    decreases |lines| - i, 1
  {
    if i == |lines| {
      FinishPending(b);
    } else if MajorMark in lines[i].text {
      var g := MajorAt(lines[i], page);
      OpenMajorPending(b, g);
      BlockStep(lines, page, i, b, i + 1, OpenMajor(b, g), Block(g.title, g.box, g.page, MajorTitleTag, None));
    } else if MinorMark in lines[i].text {
      var m := MinorAt(lines, i, page);
      OpenMinorPending(b, m);
      assert ContextOf(OpenMinor(b, m)) == ContextOf(b).(minor := Some(m.title));
      BlockStep(lines, page, i, b, RowEnd(lines, i, i + 1), OpenMinor(b, m),
        Block(m.description, m.box, m.page, MinorTitleTag, Some(m.title)));
    } else {
      var it := Item(lines[i].text, lines[i].box, page);
      AddBodyPending(b, it);
      BlockStep(lines, page, i, b, i + 1, AddBody(b, it), BodyBlock(it, ContextOf(b)));
    }
  }

  /** The flattened sections of a page are exactly its lines' blocks: each
      block's text, rectangle, page, `section_type` and `section_title`
      follow from its line and the ◆ and ■ lines before it. */
  lemma StructureBlocks(lines: seq<Line>, page: nat)
    ensures FlattenSections(StructureSections(lines, page)) == PageBlocks(lines, page, 0, Context(None, None))
  {
    var c := Context(None, None);
    assert ContextOf(Start) == c && Pending(Start) == [];
    StructureFromBlocks(lines, page, 0, Start);
    PrefixEmpty(FlattenSections(StructureSections(lines, page)), Pending(Start), PageBlocks(lines, page, 0, c));
  }

  /** One line's step of `PageBlocksOrigins`: the line gives block `x`. */
  lemma OriginsStep(lines: seq<Line>, page: nat, i: nat, next: nat, c: Context, c': Context, x: Block)
    requires i < next <= |lines|
    requires PageBlocks(lines, page, i, c) == [x] + PageBlocks(lines, page, next, c')
    requires Contributions(lines, page, i) == [Origin(x)] + Contributions(lines, page, next)
    requires Origins(PageBlocks(lines, page, next, c')) == Contributions(lines, page, next)
    ensures Origins(PageBlocks(lines, page, i, c)) == Contributions(lines, page, i)
  {
    OriginsAppend([x], PageBlocks(lines, page, next, c'));
  }

  /** The blocks' origins are the lines' contributions, whatever the open
      titles. */
  lemma {:induction false} PageBlocksOrigins(lines: seq<Line>, page: nat, i: nat, c: Context)
    requires i <= |lines|
    ensures Origins(PageBlocks(lines, page, i, c)) == Contributions(lines, page, i)
    decreases |lines| - i
  {
    if i < |lines| {
      if MajorMark in lines[i].text {
        var t := MajorTitle(lines[i].text);
        PageBlocksOrigins(lines, page, i + 1, Context(Some(t), None));
        OriginsStep(lines, page, i, i + 1, c, Context(Some(t), None), Block(t, lines[i].box, page, MajorTitleTag, None));
      } else if MinorMark in lines[i].text {
        var e := RowEnd(lines, i, i + 1);
        var t := MinorTitle(lines[i].text);
        PageBlocksOrigins(lines, page, e, c.(minor := Some(t)));
        OriginsStep(lines, page, i, e, c, c.(minor := Some(t)),
          Block(Description(lines, i, e), lines[i].box, page, MinorTitleTag, Some(t)));
      } else {
        PageBlocksOrigins(lines, page, i + 1, c);
        OriginsStep(lines, page, i, i + 1, c, c, BodyBlock(Item(lines[i].text, lines[i].box, page), c));
      }
    }
  }

  /** A page with a kept line has a section, and one without has none. */
  lemma StructureEmpty(lines: seq<Line>, page: nat)
    ensures StructureSections(lines, page) == [] <==> lines == []
  {
    StructureFlattens(lines, page);
    assert FlattenSections([]) == [];
    if lines != [] {
      assert |Contributions(lines, page, 0)| > 0;
    }
  }

  // ---------------------------------------------------------------------
  // parse and get_all_text_blocks
  // ---------------------------------------------------------------------

  datatype PageData = PageData(page: nat, sections: seq<Section>)

  /** `_parse_page`. */
  function ParsePage(page: nat, raws: seq<RawLine>): PageData {
    PageData(page, StructureSections(PageLines(raws), page))
  }

  /** What `parse` keeps of page `p`: its data, unless it has no section. */
  function KeptPage(p: nat, raws: seq<RawLine>): seq<PageData> {
    var pd := ParsePage(p, raws);
    if pd.sections == [] then [] else [pd]
  }

  /** A page is kept exactly when one of its lines is. */
  lemma KeptPageSpec(p: nat, raws: seq<RawLine>)
    ensures KeptPage(p, raws) == (if KeepLines(raws) == [] then [] else [ParsePage(p, raws)])
  {
    StructureEmpty(PageLines(raws), p);
  }

  /** `parse`: the data of every page that has a section, in page order. */
  function Parse(doc: seq<seq<RawLine>>): seq<PageData> {
    FlatMapIndexed(doc, KeptPage)
  }

  /** A page's data is in the parse exactly when the page keeps a line. */
  lemma ParseMembers(doc: seq<seq<RawLine>>, pd: PageData)
    ensures pd in Parse(doc) <==>
      exists p: nat | p < |doc| :: KeepLines(doc[p]) != [] && pd == ParsePage(p, doc[p])
  {
    FlatMapIndexedMembers(doc, KeptPage, pd);
    forall p: nat | p < |doc|
      ensures pd in KeptPage(p, doc[p]) <==> KeepLines(doc[p]) != [] && pd == ParsePage(p, doc[p])
    {
      KeptPageSpec(p, doc[p]);
    }
  }

  /** `get_all_text_blocks`: every section of every page, flattened. */
  function AllTextBlocks(pages: seq<PageData>): seq<Block> {
    if pages == [] then [] else AllTextBlocks(pages[..|pages| - 1]) + FlattenSections(pages[|pages| - 1].sections)
  }

  /** The contributions of every page's lines, page after page. */
  function DocContributions(doc: seq<seq<RawLine>>): seq<(string, BBox, nat)> {
    if doc == [] then [] else DocContributions(doc[..|doc| - 1]) + Contributions(PageLines(doc[|doc| - 1]), |doc| - 1, 0)
  }

  lemma AllBlocksAppend(pages: seq<PageData>, more: seq<PageData>)
    requires |more| <= 1
    ensures AllTextBlocks(pages + more) == AllTextBlocks(pages) + AllTextBlocks(more)
  {
    if more == [] {
      assert pages + more == pages;
    } else {
      assert (pages + more)[..|pages|] == pages;
    }
  }

  /** What one page adds to the blocks is its lines' contributions. */
  lemma KeptPageBlocks(p: nat, raws: seq<RawLine>)
    ensures Origins(AllTextBlocks(KeptPage(p, raws))) == Contributions(PageLines(raws), p, 0)
  {
    var pd := ParsePage(p, raws);
    StructureFlattens(PageLines(raws), p);
    if pd.sections == [] {
      assert FlattenSections(pd.sections) == [];
    } else {
      assert AllTextBlocks([pd]) == FlattenSections(pd.sections);
    }
  }

  /** The blocks handed to the comparator follow the document: page after
      page, each page's kept lines in `(y, x)` order, every line used once
      and the lines on a ■ line's row folded into its description. */
  lemma {:induction false} AllTextBlocksFollowDocument(doc: seq<seq<RawLine>>)
    ensures Origins(AllTextBlocks(Parse(doc))) == DocContributions(doc)
  {
    if doc != [] {
      var init := doc[..|doc| - 1];
      var last := KeptPage(|doc| - 1, doc[|doc| - 1]);
      AllTextBlocksFollowDocument(init);
      KeptPageBlocks(|doc| - 1, doc[|doc| - 1]);
      AllBlocksAppend(Parse(init), last);
      OriginsAppend(AllTextBlocks(Parse(init)), AllTextBlocks(last));
    }
  }

  /** The blocks of every page's lines, page after page, each page read
      with no section open. */
  function DocBlocks(doc: seq<seq<RawLine>>): seq<Block> {
    if doc == [] then [] else DocBlocks(doc[..|doc| - 1]) + PageBlocks(PageLines(doc[|doc| - 1]), |doc| - 1, 0, Context(None, None))
  }

  /** What one page adds to the blocks is its lines' blocks. */
  lemma KeptPageWholeBlocks(p: nat, raws: seq<RawLine>)
    ensures AllTextBlocks(KeptPage(p, raws)) == PageBlocks(PageLines(raws), p, 0, Context(None, None))
  {
    var pd := ParsePage(p, raws);
    StructureBlocks(PageLines(raws), p);
    if pd.sections == [] {
      assert FlattenSections(pd.sections) == [];
    } else {
      assert AllTextBlocks([pd]) == FlattenSections(pd.sections);
    }
  }

  /** `get_all_text_blocks` on the parse is the document's blocks: every
      block's text, rectangle, page, `section_type` and `section_title`
      follow from its line and the ◆ and ■ lines before it on its page. */
  lemma {:induction false} AllTextBlocksWhole(doc: seq<seq<RawLine>>)
    ensures AllTextBlocks(Parse(doc)) == DocBlocks(doc)
  {
    if doc != [] {
      var init := doc[..|doc| - 1];
      var last := KeptPage(|doc| - 1, doc[|doc| - 1]);
      AllTextBlocksWhole(init);
      KeptPageWholeBlocks(|doc| - 1, doc[|doc| - 1]);
      AllBlocksAppend(Parse(init), last);
    }
  }
}
