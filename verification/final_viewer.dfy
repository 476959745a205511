/** The word viewer of `pdf_text_compare_final_v2.py`: the selection's words
    are kept as the library reports them, its text is assembled sentence by
    sentence, the comparison normalises and splits that text, and every
    comparison appends its highlights to those already shown. */
module FinalViewer {
  import opened Basics
  import opened Text
  import opened WordViews

  /** `extract_text_with_word_info`, given the words that meet the selection:
      the stored words and the selection's text. */
  function Extract(raws: seq<RawWord>, page: nat): (seq<WordBox>, string) {
    var ws := OnPage(raws, page);
    (ws, SentencesText(Sentences(ws)))
  }

  /** The selection's text is its words joined with single spaces, and when
      the library's words are non-empty and whitespace-free the comparison
      sees exactly those words, in order. */
  lemma ExtractSpec(raws: seq<RawWord>, page: nat)
    ensures Extract(raws, page).1 == Join(" ", Texts(OnPage(raws, page)))
    ensures AllWords(Texts(OnPage(raws, page))) ==> Words(Extract(raws, page).1) == Texts(OnPage(raws, page))
  {
    var ws := OnPage(raws, page);
    SelectedTextJoin(ws);
    if AllWords(Texts(ws)) {
      WordsAligned(ws);
    }
  }

  /** The result-list lines of one opcode: a line for every deleted and
      every inserted word, and for the replaced left words that have stored
      word information. */
  function MessagesOf(op: Opcode, wl: seq<string>, wr: seq<string>, stored: nat): seq<Message>
    requires op.i1 <= op.i2 <= |wl| && op.j1 <= op.j2 <= |wr|
  {
    match op.tag
    case OpDelete => Say(LeftOf(op), wl)
    case OpInsert => Say(RightOf(op), wr)
    case OpReplace => Say(Within(LeftOf(op), Min(stored, |wl|)), wl)
    case OpEqual => []
  }

  /** `MessagesOf` for an opcode whose ranges fit the word lists, which
      `get_opcodes()` guarantees for all of them. */
  function Said(wl: seq<string>, wr: seq<string>, stored: nat, op: Opcode): seq<Message> {
    if op.i1 <= op.i2 <= |wl| && op.j1 <= op.j2 <= |wr| then MessagesOf(op, wl, wr, stored) else []
  }

  /** The result-list lines of all opcodes, in order. */
  function Messages(ops: seq<Opcode>, wl: seq<string>, wr: seq<string>, stored: nat): seq<Message> {
    FlatMap(ops, op => Said(wl, wr, stored, op))
  }

  /** `compare_texts` after `get_opcodes()`, for the compared words `wl`, `wr`
      and the stored words `il`, `ir`: highlights only for indices that have
      stored word information, labelled with the compared word. */
  function CompareWords(wl: seq<string>, wr: seq<string>, ops: seq<Opcode>, il: seq<WordBox>, ir: seq<WordBox>): Comparison
    requires ValidOpcodes(ops, |wl|, |wr|)
  {
    LeftEntriesBounded(ops, |wl|, |wr|);
    RightEntriesBounded(ops, |wl|, |wr|);
    Comparison(
      Messages(ops, wl, wr, |il|),
      Locate(Within(LeftEntries(ops), |il|), il, wl),
      Locate(Within(RightEntries(ops), |ir|), ir, wr))
  }

  /** `compare_texts`: warn when either selected text is empty, otherwise
      compare the normalised words. */
  function CompareTexts(tl: string, tr: string, ops: seq<Opcode>, il: seq<WordBox>, ir: seq<WordBox>): (v: Verdict)
    requires tl != [] && tr != [] ==> ValidOpcodes(ops, |Words(tl)|, |Words(tr)|)
    ensures v.AskForSelections? <==> tl == [] || tr == []
  {
    if tl == [] || tr == [] then AskForSelections
    else Compared(CompareWords(Words(tl), Words(tr), ops, il, ir))
  }

  /** A line one opcode produces appears among the lines of all of them. */
  lemma MessagesHas(ops: seq<Opcode>, wl: seq<string>, wr: seq<string>, stored: nat, o: nat, m: Message)
    requires ValidOpcodes(ops, |wl|, |wr|)
    requires o < |ops| && m in MessagesOf(ops[o], wl, wr, stored)
    ensures m in Messages(ops, wl, wr, stored)
  {
    assert m in Said(wl, wr, stored, ops[o]);
    FlatMapMembers(ops, op => Said(wl, wr, stored, op), m);
  }

  /** Every word of a `delete` gets a result line, whether or not it has
      stored word information. */
  lemma DeleteAlwaysSaid(ops: seq<Opcode>, wl: seq<string>, wr: seq<string>, stored: nat, o: nat, i: nat)
    requires ValidOpcodes(ops, |wl|, |wr|)
    requires o < |ops| && ops[o].tag == OpDelete && ops[o].i1 <= i < ops[o].i2
    ensures Message(Delete, wl[i]) in Messages(ops, wl, wr, stored)
  {
    var op := ops[o];
    assert Say(LeftOf(op), wl)[i - op.i1] == Message(Delete, wl[i]);
    MessagesHas(ops, wl, wr, stored, o, Message(Delete, wl[i]));
  }

  /** Every word of an `insert` gets a result line, whether or not it has
      stored word information. */
  lemma InsertAlwaysSaid(ops: seq<Opcode>, wl: seq<string>, wr: seq<string>, stored: nat, o: nat, j: nat)
    requires ValidOpcodes(ops, |wl|, |wr|)
    requires o < |ops| && ops[o].tag == OpInsert && ops[o].j1 <= j < ops[o].j2
    ensures Message(Add, wr[j]) in Messages(ops, wl, wr, stored)
  {
    var op := ops[o];
    assert Say(RightOf(op), wr)[j - op.j1] == Message(Add, wr[j]);
    MessagesHas(ops, wl, wr, stored, o, Message(Add, wr[j]));
  }

  /** A left highlight is exactly a compared word with stored information
      that some `delete` or `replace` covers: the compared word, the
      opcode's kind, and the stored word's rectangle and page. */
  lemma CompareLeft(wl: seq<string>, wr: seq<string>, ops: seq<Opcode>, il: seq<WordBox>, ir: seq<WordBox>, d: Marked)
    requires ValidOpcodes(ops, |wl|, |wr|)
    ensures d in CompareWords(wl, wr, ops, il, ir).left <==>
      exists o, i | 0 <= o < |ops| && 0 <= i < |il| && i < |wl| ::
        LeftMark(ops[o], Entry(i, d.kind)) && d == Marked(wl[i], d.kind, il[i].box, il[i].page)
  {
    LeftEntriesBounded(ops, |wl|, |wr|);
    WithinTighter(LeftEntries(ops), |il|, |wl|);
    LeftLocated(ops, Min(|il|, |wl|), il, wl, d);
  }

  /** A right highlight is exactly a compared word with stored information
      that some `insert` or `replace` covers: the compared word, the
      opcode's kind, and the stored word's rectangle and page. */
  lemma CompareRight(wl: seq<string>, wr: seq<string>, ops: seq<Opcode>, il: seq<WordBox>, ir: seq<WordBox>, d: Marked)
    requires ValidOpcodes(ops, |wl|, |wr|)
    ensures d in CompareWords(wl, wr, ops, il, ir).right <==>
      exists o, j | 0 <= o < |ops| && 0 <= j < |ir| && j < |wr| ::
        RightMark(ops[o], Entry(j, d.kind)) && d == Marked(wr[j], d.kind, ir[j].box, ir[j].page)
  {
    RightEntriesBounded(ops, |wl|, |wr|);
    WithinTighter(RightEntries(ops), |ir|, |wr|);
    RightLocated(ops, Min(|ir|, |wr|), ir, wr, d);
  }

  /** `highlight_word_differences` on both viewers, after every comparison;
      highlights are appended, never cleared. */
  function Highlight(left: Marks, right: Marks, c: Comparison): (Marks, Marks) {
    (Paint(left, c.left, OrangePalette), Paint(right, c.right, OrangePalette))
  }

  /** Earlier highlights stay in front on every page and the new ones, in
      green, red or orange by kind, follow them. */
  lemma HighlightAccumulates(left: Marks, right: Marks, c: Comparison, page: nat)
    ensures Get(Highlight(left, right, c).0, page) == Get(left, page) + MarksOn(c.left, page, OrangePalette)
    ensures Get(Highlight(left, right, c).1, page) == Get(right, page) + MarksOn(c.right, page, OrangePalette)
  {
    PaintSpec(left, c.left, OrangePalette, page);
    PaintSpec(right, c.right, OrangePalette, page);
  }
}
