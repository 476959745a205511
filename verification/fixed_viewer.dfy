/** The word viewer of `pdf_text_compare_fixed.py`: each selected word is
    normalised when it is extracted, the comparison splits the joined
    normalised words again, and differences are appended to the highlight
    lists only when the result list is not empty. */
module FixedViewer {
  import opened Basics
  import opened Text
  import opened WordViews

  // ---------------------------------------------------------------------
  // normalize_word
  // ---------------------------------------------------------------------

  /** `normalize_word`: drop characters outside `[\w\s가-힣]`, lower-case,
      strip. */
  function NormalizeWord(w: string): (r: string)
    ensures AllKept(r) && NoUpper(r) && Trimmed(r)
  {
    var l := Lower(KeepWordSpaceHangul(w));
    StripShape(l);
    Strip(l)
  }

  lemma StripShape(l: string)
    requires NoUpper(l)
    requires forall i | 0 <= i < |l| :: IsKept(l[i]) || IsKept(LowerChar(l[i]))
    ensures AllKept(Strip(l)) && NoUpper(Strip(l))
  {
    var a := StripSlice(l);
    forall i | 0 <= i < |l| ensures IsKept(l[i]) {
      assert !IsAsciiUpper(l[i]);
    }
    assert forall i | 0 <= i < |Strip(l)| :: Strip(l)[i] == l[a + i];
  }

  /** The words `normalize_word` leaves alone are exactly those already made
      of kept characters, without upper-case letters or surrounding
      whitespace. */
  lemma NormalizeWordFixedPoints(w: string)
    ensures NormalizeWord(w) == w <==> AllKept(w) && NoUpper(w) && Trimmed(w)
  {
    if AllKept(w) && NoUpper(w) && Trimmed(w) {
      assert KeepWordSpaceHangul(w) == w;
      LowerIdentity(w);
      StripIdentity(w);
    }
  }

  /** Normalising a normalised word changes nothing. */
  lemma NormalizeWordIdempotent(w: string)
    ensures NormalizeWord(NormalizeWord(w)) == NormalizeWord(w)
  {
    NormalizeWordFixedPoints(NormalizeWord(w));
  }

  /** A word without whitespace stays without whitespace. */
  lemma NormalizeWordNoSpace(w: string)
    requires NoSpace(w)
    ensures NoSpace(NormalizeWord(w))
  {
    var k := KeepWordSpaceHangul(w);
    assert NoSpace(k) by { FilterNoSpace(w); }
    var l := Lower(k);
    assert NoSpace(l);
    StripNoSpace(l);
  }

  lemma FilterNoSpace(w: string)
    requires NoSpace(w)
    ensures NoSpace(KeepWordSpaceHangul(w))
  {
    var k := KeepWordSpaceHangul(w);
    forall i | 0 <= i < |k| ensures !IsSpace(k[i]) {
      assert k[i] in w;
    }
  }

  lemma StripNoSpace(l: string)
    requires NoSpace(l)
    ensures NoSpace(Strip(l))
  {
    var a := StripSlice(l);
    assert forall i | 0 <= i < |Strip(l)| :: Strip(l)[i] == l[a + i];
  }

  // ---------------------------------------------------------------------
  // Word extraction
  // ---------------------------------------------------------------------

  /** A selected word and its normalised form. */
  datatype FixedWord = FixedWord(word: WordBox, normalized: string)

  /** One word of the selection: kept, with its normalised form, when that
      form is not empty. */
  function KeepWord(r: RawWord, page: nat): seq<FixedWord> {
    var n := NormalizeWord(r.text);
    if n == [] then [] else [FixedWord(WordBox(r.text, r.box, page), n)]
  }

  /** `extract_text_with_word_info`, given the words that meet the selection. */
  function Extract(raws: seq<RawWord>, page: nat): seq<FixedWord> {
    FlatMap(raws, (r: RawWord) => KeepWord(r, page))
  }

  function Boxes(fs: seq<FixedWord>): (r: seq<WordBox>)
    ensures |r| == |fs|
    ensures forall k | 0 <= k < |fs| :: r[k] == fs[k].word
  {
    seq(|fs|, k requires 0 <= k < |fs| => fs[k].word)
  }

  function Normalized(fs: seq<FixedWord>): (r: seq<string>)
    ensures |r| == |fs|
    ensures forall k | 0 <= k < |fs| :: r[k] == fs[k].normalized
  {
    seq(|fs|, k requires 0 <= k < |fs| => fs[k].normalized)
  }

  /** `selected_text`: the normalised words joined with single spaces. */
  function SelectedText(fs: seq<FixedWord>): string {
    Join(" ", Normalized(fs))
  }

  /** A stored word is exactly a selected word whose normalised form is not
      empty, kept with its original text, rectangle, the page and that form. */
  lemma ExtractMembers(raws: seq<RawWord>, page: nat, f: FixedWord)
    ensures f in Extract(raws, page) <==>
      exists k | 0 <= k < |raws| ::
        NormalizeWord(raws[k].text) != [] &&
        f == FixedWord(WordBox(raws[k].text, raws[k].box, page), NormalizeWord(raws[k].text))
  {
    FlatMapMembers(raws, (r: RawWord) => KeepWord(r, page), f);
  }

  /** When the library's words hold no whitespace, splitting the selected
      text gives back the stored normalised words one for one, so word `i`
      of the comparison is stored word `i`. */
  lemma WordsAligned(raws: seq<RawWord>, page: nat)
    requires forall k | 0 <= k < |raws| :: NoSpace(raws[k].text)
    ensures Split(SelectedText(Extract(raws, page))) == Normalized(Extract(raws, page))
  {
    var fs := Extract(raws, page);
    forall k | 0 <= k < |fs| ensures IsWord(Normalized(fs)[k]) {
      ExtractMembers(raws, page, fs[k]);
      var j :| 0 <= j < |raws| && NormalizeWord(raws[j].text) != [] &&
        fs[k] == FixedWord(WordBox(raws[j].text, raws[j].box, page), NormalizeWord(raws[j].text));
      NormalizeWordNoSpace(raws[j].text);
    }
    SplitJoin(Normalized(fs));
  }

  // ---------------------------------------------------------------------
  // Comparison
  // ---------------------------------------------------------------------

  /** The result-list lines of one opcode: in-range `insert` words on the
      right, in-range `delete` and `replace` words on the left. */
  function MessagesOf(op: Opcode, left: seq<string>, right: seq<string>): seq<Message> {
    if op.tag == OpInsert then Say(Within(RightOf(op), |right|), right)
    else Say(Within(LeftOf(op), |left|), left)
  }

  /** `compare_texts` after `get_opcodes()`: every marked index is checked
      against the stored words before it is used, and each difference is
      labelled with the stored word's original text. */
  function Compare(ops: seq<Opcode>, wl: seq<FixedWord>, wr: seq<FixedWord>): Comparison {
    var bl := Boxes(wl);
    var br := Boxes(wr);
    var tl := Texts(bl);
    var tr := Texts(br);
    Comparison(
      FlatMap(ops, (op: Opcode) => MessagesOf(op, tl, tr)),
      Locate(Within(LeftEntries(ops), |bl|), bl, tl),
      Locate(Within(RightEntries(ops), |br|), br, tr))
  }

  /** A left difference is exactly a stored word that some `delete` or
      `replace` covers, with that opcode's kind, the word's text, rectangle
      and page. */
  lemma CompareLeft(ops: seq<Opcode>, wl: seq<FixedWord>, wr: seq<FixedWord>, d: Marked)
    ensures d in Compare(ops, wl, wr).left <==>
      exists o, i | 0 <= o < |ops| && 0 <= i < |wl| ::
        LeftMark(ops[o], Entry(i, d.kind)) &&
        d == Marked(wl[i].word.text, d.kind, wl[i].word.box, wl[i].word.page)
  {
    LeftLocated(ops, |wl|, Boxes(wl), Texts(Boxes(wl)), d);
  }

  /** A right difference is exactly a stored word that some `insert` or
      `replace` covers, with that opcode's kind, the word's text, rectangle
      and page. */
  lemma CompareRight(ops: seq<Opcode>, wl: seq<FixedWord>, wr: seq<FixedWord>, d: Marked)
    ensures d in Compare(ops, wl, wr).right <==>
      exists o, j | 0 <= o < |ops| && 0 <= j < |wr| ::
        RightMark(ops[o], Entry(j, d.kind)) &&
        d == Marked(wr[j].word.text, d.kind, wr[j].word.box, wr[j].word.page)
  {
    RightLocated(ops, |wr|, Boxes(wr), Texts(Boxes(wr)), d);
  }

  /** The result list is empty exactly when nothing is marked on the left
      and only changes are marked on the right. */
  lemma SilentIffUnmarked(ops: seq<Opcode>, wl: seq<FixedWord>, wr: seq<FixedWord>)
    ensures var c := Compare(ops, wl, wr);
      c.messages == [] <==> c.left == [] && forall k | 0 <= k < |c.right| :: c.right[k].kind == Change
  {
    var c := Compare(ops, wl, wr);
    if c.messages == [] {
      SilentLeft(ops, wl, wr);
      SilentRight(ops, wl, wr);
    } else {
      LoudMarks(ops, wl, wr);
    }
  }

  lemma SilentLeft(ops: seq<Opcode>, wl: seq<FixedWord>, wr: seq<FixedWord>)
    requires Compare(ops, wl, wr).messages == []
    ensures Compare(ops, wl, wr).left == []
  {
    var c := Compare(ops, wl, wr);
    var tl := Texts(Boxes(wl));
    var tr := Texts(Boxes(wr));
    if c.left != [] {
      var d := c.left[0];
      CompareLeft(ops, wl, wr, d);
      var o, i :| 0 <= o < |ops| && 0 <= i < |wl| && LeftMark(ops[o], Entry(i, d.kind)) &&
        d == Marked(wl[i].word.text, d.kind, wl[i].word.box, wl[i].word.page);
      SaidLeft(ops[o], tl, tr, i, d.kind);
      FlatMapMembers(ops, (op: Opcode) => MessagesOf(op, tl, tr), Message(d.kind, tl[i]));
      assert false;
    }
  }

  lemma SilentRight(ops: seq<Opcode>, wl: seq<FixedWord>, wr: seq<FixedWord>)
    requires Compare(ops, wl, wr).messages == []
    ensures forall k | 0 <= k < |Compare(ops, wl, wr).right| :: Compare(ops, wl, wr).right[k].kind == Change
  {
    var c := Compare(ops, wl, wr);
    var tl := Texts(Boxes(wl));
    var tr := Texts(Boxes(wr));
    forall k | 0 <= k < |c.right| ensures c.right[k].kind == Change {
      var d := c.right[k];
      CompareRight(ops, wl, wr, d);
      var o, j :| 0 <= o < |ops| && 0 <= j < |wr| && RightMark(ops[o], Entry(j, d.kind)) &&
        d == Marked(wr[j].word.text, d.kind, wr[j].word.box, wr[j].word.page);
      if d.kind == Add {
        SaidRight(ops[o], tl, tr, j);
        FlatMapMembers(ops, (op: Opcode) => MessagesOf(op, tl, tr), Message(Add, tr[j]));
        assert false;
      }
    }
  }

  lemma LoudMarks(ops: seq<Opcode>, wl: seq<FixedWord>, wr: seq<FixedWord>)
    requires Compare(ops, wl, wr).messages != []
    ensures Compare(ops, wl, wr).left != [] || exists k | 0 <= k < |Compare(ops, wl, wr).right| :: Compare(ops, wl, wr).right[k].kind == Add
  {
    var c := Compare(ops, wl, wr);
    var tl := Texts(Boxes(wl));
    var tr := Texts(Boxes(wr));
    var m := c.messages[0];
    FlatMapMembers(ops, (op: Opcode) => MessagesOf(op, tl, tr), m);
    var o :| 0 <= o < |ops| && m in MessagesOf(ops[o], tl, tr);
    if ops[o].tag == OpInsert {
      var j := HeardRight(ops[o], tl, tr, m);
      var d := Marked(wr[j].word.text, Add, wr[j].word.box, wr[j].word.page);
      CompareRight(ops, wl, wr, d);
      var k :| 0 <= k < |c.right| && c.right[k] == d;
    } else {
      var i, kind := HeardLeft(ops[o], tl, tr, m);
      var d := Marked(wl[i].word.text, kind, wl[i].word.box, wl[i].word.page);
      CompareLeft(ops, wl, wr, d);
    }
  }

  /** A result line of an `insert` names an inserted right word. */
  lemma HeardRight(op: Opcode, tl: seq<string>, tr: seq<string>, m: Message) returns (j: nat)
    requires op.tag == OpInsert && m in MessagesOf(op, tl, tr)
    ensures j < |tr| && RightMark(op, Entry(j, Add))
  {
    var es := Within(RightOf(op), |tr|);
    var k :| 0 <= k < |es| && Say(es, tr)[k] == m;
    WithinMembers(RightOf(op), |tr|, es[k]);
    RunMembers(op.j1, op.j2, Add, es[k]);
    j := es[k].index;
  }

  /** A result line of a `delete` or `replace` names a covered left word. */
  lemma HeardLeft(op: Opcode, tl: seq<string>, tr: seq<string>, m: Message) returns (i: nat, kind: DiffKind)
    requires op.tag != OpInsert && m in MessagesOf(op, tl, tr)
    ensures i < |tl| && LeftMark(op, Entry(i, kind))
  {
    var es := Within(LeftOf(op), |tl|);
    var k :| 0 <= k < |es| && Say(es, tl)[k] == m;
    WithinMembers(LeftOf(op), |tl|, es[k]);
    if op.tag == OpDelete {
      RunMembers(op.i1, op.i2, Delete, es[k]);
    } else {
      RunMembers(op.i1, op.i2, Change, es[k]);
    }
    i, kind := es[k].index, es[k].kind;
  }

  /** A left word covered by a `delete` or `replace` gets a result line. */
  lemma SaidLeft(op: Opcode, tl: seq<string>, tr: seq<string>, i: nat, kind: DiffKind)
    requires i < |tl| && LeftMark(op, Entry(i, kind))
    ensures Message(kind, tl[i]) in MessagesOf(op, tl, tr)
  {
    var e := Entry(i, kind);
    if op.tag == OpDelete {
      RunMembers(op.i1, op.i2, Delete, e);
    } else {
      RunMembers(op.i1, op.i2, Change, e);
    }
    WithinMembers(LeftOf(op), |tl|, e);
    var es := Within(LeftOf(op), |tl|);
    var k :| 0 <= k < |es| && es[k] == e;
    assert Say(es, tl)[k] == Message(kind, tl[i]);
  }

  /** A right word covered by an `insert` gets a result line. */
  lemma SaidRight(op: Opcode, tl: seq<string>, tr: seq<string>, j: nat)
    requires j < |tr| && RightMark(op, Entry(j, Add))
    ensures Message(Add, tr[j]) in MessagesOf(op, tl, tr)
  {
    var e := Entry(j, Add);
    RunMembers(op.j1, op.j2, Add, e);
    WithinMembers(RightOf(op), |tr|, e);
    var es := Within(RightOf(op), |tr|);
    var k :| 0 <= k < |es| && es[k] == e;
    assert Say(es, tr)[k] == Message(Add, tr[j]);
  }

  /** `highlight_word_differences` on both viewers, called only when the
      result list is not empty; highlights are appended, never cleared. */
  function Highlight(left: Marks, right: Marks, c: Comparison): (Marks, Marks) {
    if c.messages == [] then (left, right)
    else (Paint(left, c.left, OrangePalette), Paint(right, c.right, OrangePalette))
  }

  /** Earlier highlights stay in front on every page; the new ones, in the
      fixed colours, follow them, and only when the result list is not empty. */
  lemma HighlightAccumulates(left: Marks, right: Marks, c: Comparison, page: nat)
    ensures var (l, r) := Highlight(left, right, c);
      && Get(l, page) == Get(left, page) + (if c.messages == [] then [] else MarksOn(c.left, page, OrangePalette))
      && Get(r, page) == Get(right, page) + (if c.messages == [] then [] else MarksOn(c.right, page, OrangePalette))
  {
    if c.messages != [] {
      PaintSpec(left, c.left, OrangePalette, page);
      PaintSpec(right, c.right, OrangePalette, page);
    } else {
      assert Get(left, page) + [] == Get(left, page);
      assert Get(right, page) + [] == Get(right, page);
    }
  }

  /** No selected word has a non-empty normal form. */
  predicate NothingKept(raws: seq<RawWord>) {
    forall k | 0 <= k < |raws| :: NormalizeWord(raws[k].text) == []
  }

  /** Joining with a separator gives the empty string only for no words or
      one empty word. */
  lemma JoinEmpty(ws: seq<string>)
    ensures Join(" ", ws) == [] <==> ws == [] || ws == [[]]
  {
    if |ws| > 1 {
      assert |Join(" ", ws)| >= 1;
    }
  }

  /** The stored words are empty exactly when no selected word has a
      non-empty normal form. */
  lemma ExtractEmpty(raws: seq<RawWord>, page: nat)
    ensures Extract(raws, page) == [] <==> NothingKept(raws)
  {
    var fs := Extract(raws, page);
    if fs != [] {
      assert !NothingKept(raws) by {
        ExtractMembers(raws, page, fs[0]);
      }
    }
    if !NothingKept(raws) {
      var k :| 0 <= k < |raws| && NormalizeWord(raws[k].text) != [];
      var f := FixedWord(WordBox(raws[k].text, raws[k].box, page), NormalizeWord(raws[k].text));
      assert f in fs by {
        ExtractMembers(raws, page, f);
      }
    }
  }

  /** The selected text is empty exactly when no selected word has a
      non-empty normal form. */
  lemma SelectedTextEmpty(raws: seq<RawWord>, page: nat)
    ensures SelectedText(Extract(raws, page)) == [] <==> NothingKept(raws)
  {
    var fs := Extract(raws, page);
    ExtractEmpty(raws, page);
    JoinEmpty(Normalized(fs));
    if |fs| == 1 {
      assert fs[0].normalized != [] by {
        ExtractMembers(raws, page, fs[0]);
      }
    }
  }

  /** `compare_texts`: ask for selections when either selected text is
      empty; otherwise compare the stored words. */
  function CompareTexts(wl: seq<FixedWord>, wr: seq<FixedWord>, ops: seq<Opcode>): (v: Verdict)
    ensures v.AskForSelections? <==> SelectedText(wl) == [] || SelectedText(wr) == []
    ensures v.Compared? ==> v.c == Compare(ops, wl, wr)
  {
    if SelectedText(wl) == [] || SelectedText(wr) == [] then AskForSelections
    else Compared(Compare(ops, wl, wr))
  }

  /** Comparing two selections asks for selections exactly when one side has
      no word with a non-empty normal form. */
  lemma CompareSelectionsWarns(rawsL: seq<RawWord>, pl: nat, rawsR: seq<RawWord>, pr: nat, ops: seq<Opcode>)
    ensures CompareTexts(Extract(rawsL, pl), Extract(rawsR, pr), ops).AskForSelections? <==>
      NothingKept(rawsL) || NothingKept(rawsR)
  {
    SelectedTextEmpty(rawsL, pl);
    SelectedTextEmpty(rawsR, pr);
  }

  /** When the words compare equal throughout, the result list is empty and
      nothing is marked. */
  lemma IdenticalMarksNothing(ops: seq<Opcode>, wl: seq<FixedWord>, wr: seq<FixedWord>)
    requires forall k | 0 <= k < |ops| :: ops[k].tag == OpEqual
    ensures Compare(ops, wl, wr) == Comparison([], [], [])
  {
    EqualOpsMarkNothing(ops);
    SilentIffUnmarked(ops, wl, wr);
  }
}
