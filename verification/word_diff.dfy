/** What the four word-level viewers share: the `normalize_text` helper, the
    grouping of selected words into sentences, the expansion of `difflib`
    opcodes into per-word entries, and the per-page highlight lists the
    viewers paint. */
module WordViews {
  import opened Basics
  import opened Text

  // ---------------------------------------------------------------------
  // normalize_text
  // ---------------------------------------------------------------------

  /** `normalize_text`: drop every `\n` and `\r`, turn each whitespace run
      into one space, strip. */
  function NormalizeLines(t: string): (r: string)
    ensures Clean(r)
  {
    var glued := RemoveChar(RemoveChar(t, '\n'), '\r');
    CollapseStripClean(glued);
    Strip(CollapseSpaces(glued))
  }

  /** Removing a character works piece by piece. */
  lemma {:induction false} RemoveCharAppend(x: string, y: string, c: char)
    ensures RemoveChar(x + y, c) == RemoveChar(x, c) + RemoveChar(y, c)
    decreases |x|
  {
    if x == [] {
      assert x + y == y;
    } else {
      assert (x + y)[0] == x[0];
      assert (x + y)[1..] == x[1..] + y;
      RemoveCharAppend(x[1..], y, c);
    }
  }

  /** A clean string holds no line breaks. */
  lemma CleanNoBreaks(s: string)
    requires Clean(s)
    ensures '\n' !in s && '\r' !in s
  {
    forall i | 0 <= i < |s| ensures s[i] != '\n' && s[i] != '\r' {
      assert IsSpace(s[i]) ==> s[i] == ' ';
    }
  }

  /** A clean string is left as it is. */
  lemma NormalizeLinesFixes(s: string)
    requires Clean(s)
    ensures NormalizeLines(s) == s
  {
    CleanNoBreaks(s);
    assert RemoveChar(RemoveChar(s, '\n'), '\r') == s;
    CollapseIdentity(s);
    StripIdentity(s);
  }

  /** The result has no line breaks, and normalising it again changes nothing. */
  lemma NormalizeLinesIdempotent(t: string)
    ensures '\n' !in NormalizeLines(t) && '\r' !in NormalizeLines(t)
    ensures NormalizeLines(NormalizeLines(t)) == NormalizeLines(t)
  {
    CleanNoBreaks(NormalizeLines(t));
    NormalizeLinesFixes(NormalizeLines(t));
  }

  /** Removing `c` and then `d` deletes an `x` that is either of them
      without a trace. */
  lemma DropEither(a: string, b: string, x: char, c: char, d: char)
    requires x == c || x == d
    ensures RemoveChar(RemoveChar(a + [x] + b, c), d) == RemoveChar(RemoveChar(a + b, c), d)
  {
    var ra := RemoveChar(a, c);
    var rx := RemoveChar([x], c);
    var rb := RemoveChar(b, c);
    assert RemoveChar(a + [x] + b, c) == ra + rx + rb by {
      RemoveCharAppend(a + [x], b, c);
      RemoveCharAppend(a, [x], c);
    }
    assert RemoveChar(a + b, c) == ra + rb by {
      RemoveCharAppend(a, b, c);
    }
    assert RemoveChar(rx, d) == [] by {
      assert [x][1..] == [];
      if x != c {
        assert rx == [x];
        assert rx[1..] == [];
      }
    }
    assert RemoveChar(ra + rx + rb, d) == RemoveChar(ra, d) + RemoveChar(rx, d) + RemoveChar(rb, d) by {
      RemoveCharAppend(ra + rx, rb, d);
      RemoveCharAppend(ra, rx, d);
    }
    RemoveCharAppend(ra, rb, d);
  }

  /** A line break is deleted, not turned into a space: the words on either
      side of it are glued together. */
  lemma NormalizeLinesGlues(a: string, b: string, x: char)
    requires x == '\n' || x == '\r'
    ensures NormalizeLines(a + [x] + b) == NormalizeLines(a + b)
  {
    DropEither(a, b, x, '\n', '\r');
  }

  // ---------------------------------------------------------------------
  // Joining words
  // ---------------------------------------------------------------------

  /** Gluing two clean non-empty strings with one space keeps the result clean. */
  lemma CleanGlue(a: string, b: string)
    requires Clean(a) && Clean(b) && a != [] && b != []
    ensures Clean(a + " " + b)
  {
    var s := a + " " + b;
    forall i | 0 <= i < |s| ensures IsSpace(s[i]) ==> s[i] == ' ' {
      if i > |a| { assert s[i] == b[i - |a| - 1]; }
    }
    forall i | 0 <= i < |s| - 1 ensures !(s[i] == ' ' && s[i + 1] == ' ') {
      if i + 1 < |a| {
        assert s[i] == a[i] && s[i + 1] == a[i + 1];
      } else if i + 1 == |a| {
        assert s[i] == a[|a| - 1];
      } else if i == |a| {
        assert s[i + 1] == b[0];
      } else {
        assert s[i] == b[i - |a| - 1] && s[i + 1] == b[i - |a|];
      }
    }
    assert s[|s| - 1] == b[|b| - 1];
  }

  /** Non-empty whitespace-free words joined with single spaces form a clean,
      non-empty string. */
  lemma {:induction false} JoinClean(ws: seq<string>)
    requires AllWords(ws) && ws != []
    ensures Clean(Join(" ", ws)) && Join(" ", ws) != []
  {
    if |ws| == 1 {
      assert IsWord(ws[0]);
    } else {
      assert AllWords(ws[1..]) by {
        assert forall k | 0 <= k < |ws| - 1 :: ws[1..][k] == ws[k + 1];
      }
      JoinClean(ws[1..]);
      assert IsWord(ws[0]);
      CleanGlue(ws[0], Join(" ", ws[1..]));
    }
  }

  /** Joining two non-empty lists puts one separator between their joins. */
  lemma {:induction false} JoinAppend(sep: string, a: seq<string>, b: seq<string>)
    requires a != [] && b != []
    ensures Join(sep, a + b) == Join(sep, a) + sep + Join(sep, b)
    decreases |a|
  {
    if |a| == 1 {
      assert (a + b)[1..] == b;
    } else {
      assert (a + b)[1..] == a[1..] + b;
      JoinAppend(sep, a[1..], b);
    }
  }

  // ---------------------------------------------------------------------
  // Selected words and sentences
  // ---------------------------------------------------------------------

  /** A word as the PDF library reports it: its text and rectangle. */
  datatype RawWord = RawWord(text: string, box: BBox)

  /** A selected word: its text, rectangle and page. */
  datatype WordBox = WordBox(text: string, box: BBox, page: nat)

  /** The selected words of one page, tagged with that page. */
  function OnPage(raws: seq<RawWord>, page: nat): (r: seq<WordBox>)
    ensures |r| == |raws|
    ensures forall k | 0 <= k < |raws| :: r[k] == WordBox(raws[k].text, raws[k].box, page)
  {
    seq(|raws|, k requires 0 <= k < |raws| => WordBox(raws[k].text, raws[k].box, page))
  }

  function Texts(ws: seq<WordBox>): (r: seq<string>)
    ensures |r| == |ws|
    ensures forall k | 0 <= k < |ws| :: r[k] == ws[k].text
  {
    seq(|ws|, k requires 0 <= k < |ws| => ws[k].text)
  }

  /** A word ends a sentence when it ends with `.` or `。`. */
  predicate EndsSentence(w: string) {
    EndsWith(w, ".") || EndsWith(w, "。")
  }

  /** The closed sentences and the open one after reading `ws` word by word:
      each word joins the open sentence, and a sentence-ending word closes it. */
  function Gather(ws: seq<WordBox>): (seq<seq<WordBox>>, seq<WordBox>) {
    if ws == [] then ([], [])
    else
      var (done, open) := Gather(ws[..|ws| - 1]);
      var grown := open + [ws[|ws| - 1]];
      if EndsSentence(ws[|ws| - 1].text) then (done + [grown], []) else (done, grown)
  }

  /** The sentence list: the closed sentences, then the open one if it is not
      empty. */
  function Sentences(ws: seq<WordBox>): seq<seq<WordBox>> {
    var (done, open) := Gather(ws);
    if open == [] then done else done + [open]
  }

  /** No word before the last one of `s` ends a sentence. */
  predicate Unbroken(s: seq<WordBox>) {
    forall k | 0 <= k < |s| - 1 :: !EndsSentence(s[k].text)
  }

  /** `ss` cuts `ws` into sentences the way the viewers do: the pieces give
      `ws` back in order, none is empty, only a piece's last word may end a
      sentence, and every piece but the last ends with such a word. */
  predicate IsSentenceSplit(ss: seq<seq<WordBox>>, ws: seq<WordBox>) {
    && Flatten(ss) == ws
    && (forall k | 0 <= k < |ss| :: ss[k] != [] && Unbroken(ss[k]))
    && (forall k | 0 <= k < |ss| - 1 :: EndsSentence(ss[k][|ss[k]| - 1].text))
  }

  /** What reading word by word keeps true. */
  predicate Gathered(done: seq<seq<WordBox>>, open: seq<WordBox>, ws: seq<WordBox>) {
    && Flatten(done) + open == ws
    && (forall k | 0 <= k < |done| :: done[k] != [] && Unbroken(done[k]))
    && (forall k | 0 <= k < |done| :: EndsSentence(done[k][|done[k]| - 1].text))
    && (forall k | 0 <= k < |open| :: !EndsSentence(open[k].text))
  }

  /** A word that ends no sentence joins the open sentence. */
  lemma GatheredExtend(done: seq<seq<WordBox>>, open: seq<WordBox>, init: seq<WordBox>, x: WordBox)
    requires Gathered(done, open, init) && !EndsSentence(x.text)
    ensures Gathered(done, open + [x], init + [x])
  {
    assert Flatten(done) + (open + [x]) == (Flatten(done) + open) + [x];
  }

  /** A word that ends a sentence closes the open sentence with it. */
  lemma GatheredClose(done: seq<seq<WordBox>>, open: seq<WordBox>, init: seq<WordBox>, x: WordBox)
    requires Gathered(done, open, init) && EndsSentence(x.text)
    ensures Gathered(done + [open + [x]], [], init + [x])
  {
    var grown := open + [x];
    FlattenSnoc(done, grown);
    assert Flatten(done) + grown == (Flatten(done) + open) + [x];
    assert Unbroken(grown) by {
      assert forall k | 0 <= k < |grown| - 1 :: grown[k] == open[k];
    }
    assert Flatten(done + [grown]) + [] == init + [x];
  }

  lemma {:induction false} GatherSpec(ws: seq<WordBox>)
    ensures Gathered(Gather(ws).0, Gather(ws).1, ws)
  {
    if ws != [] {
      var init := ws[..|ws| - 1];
      var x := ws[|ws| - 1];
      GatherSpec(init);
      var (done, open) := Gather(init);
      assert init + [x] == ws;
      if EndsSentence(x.text) {
        GatheredClose(done, open, init, x);
      } else {
        GatheredExtend(done, open, init, x);
      }
    }
  }

  /** The sentence list is a sentence split of the selected words. */
  lemma SentencesSplit(ws: seq<WordBox>)
    ensures IsSentenceSplit(Sentences(ws), ws)
  {
    GatherSpec(ws);
    var (done, open) := Gather(ws);
    if open != [] {
      FlattenSnoc(done, open);
    } else {
      assert Flatten(done) + [] == ws;
    }
  }

  /** A sentence's text: its words joined with single spaces. */
  function SentenceText(s: seq<WordBox>): string {
    Join(" ", Texts(s))
  }

  /** `' '.join(sentence texts)`: the text a selection hands to the comparison. */
  function SentencesText(ss: seq<seq<WordBox>>): string {
    Join(" ", seq(|ss|, k requires 0 <= k < |ss| => SentenceText(ss[k])))
  }

  lemma TextsAppend(a: seq<WordBox>, b: seq<WordBox>)
    ensures Texts(a + b) == Texts(a) + Texts(b)
  {
  }

  /** Joining the sentence texts gives the words joined directly, whatever
      the grouping, as long as no sentence is empty. */
  lemma {:induction false} SentencesTextJoin(ss: seq<seq<WordBox>>)
    requires forall k | 0 <= k < |ss| :: ss[k] != []
    ensures SentencesText(ss) == Join(" ", Texts(Flatten(ss)))
  {
    if ss != [] {
      var init := ss[..|ss| - 1];
      var s := ss[|ss| - 1];
      assert ss == init + [s];
      FlattenSnoc(init, s);
      TextsAppend(Flatten(init), s);
      var parts := seq(|ss|, k requires 0 <= k < |ss| => SentenceText(ss[k]));
      var initParts := seq(|init|, k requires 0 <= k < |init| => SentenceText(init[k]));
      assert parts == initParts + [SentenceText(s)];
      if init == [] {
        assert Flatten(init) == [];
        assert Texts(Flatten(ss)) == Texts(s);
      } else {
        SentencesTextJoin(init);
        assert SentencesText(init) == Join(" ", initParts);
        JoinAppend(" ", initParts, [SentenceText(s)]);
        assert Texts(Flatten(init)) != [] by {
          assert init[0] != [];
          FlattenFirst(init);
        }
        JoinAppend(" ", Texts(Flatten(init)), Texts(s));
      }
    }
  }

  lemma {:induction false} FlattenFirst(ss: seq<seq<WordBox>>)
    requires ss != [] && ss[0] != []
    ensures Flatten(ss) != []
  {
    if |ss| > 1 {
      FlattenFirst(ss[..|ss| - 1]);
    }
  }

  /** The selection's text is its words joined with single spaces, whatever
      the sentence grouping. */
  lemma SelectedTextJoin(ws: seq<WordBox>)
    ensures SentencesText(Sentences(ws)) == Join(" ", Texts(ws))
  {
    SentencesSplit(ws);
    SentencesTextJoin(Sentences(ws));
  }

  /** When every selected word is non-empty and whitespace-free, normalising
      and splitting the selection's text gives back exactly its words, so
      word `i` of the comparison is entry `i` of the word list. */
  lemma WordsAligned(ws: seq<WordBox>)
    requires AllWords(Texts(ws))
    ensures Split(NormalizeLines(SentencesText(Sentences(ws)))) == Texts(ws)
  {
    SelectedTextJoin(ws);
    if ws != [] {
      JoinClean(Texts(ws));
      NormalizeLinesFixes(Join(" ", Texts(ws)));
    }
    SplitJoin(Texts(ws));
  }

  // ---------------------------------------------------------------------
  // Opcode expansion
  // ---------------------------------------------------------------------

  /** The `type` of a word difference. */
  datatype DiffKind = Add | Delete | Change

  /** Word `index` of one side is marked with `kind`. */
  datatype Entry = Entry(index: nat, kind: DiffKind)

  /** `for i in range(lo, hi)`, each index marked `kind`. */
  function Run(lo: nat, hi: nat, kind: DiffKind): (r: seq<Entry>)
    ensures |r| == (if lo <= hi then hi - lo else 0)
    ensures forall k | 0 <= k < |r| :: r[k] == Entry(lo + k, kind)
  {
    if lo < hi then seq(hi - lo, k requires 0 <= k < hi - lo => Entry(lo + k, kind)) else []
  }

  /** The left-side entries of one opcode: `delete` marks its left range
      `Delete`, `replace` marks it `Change`. */
  function LeftOf(op: Opcode): seq<Entry> {
    match op.tag
    case OpDelete => Run(op.i1, op.i2, Delete)
    case OpReplace => Run(op.i1, op.i2, Change)
    case _ => []
  }

  /** The right-side entries: `insert` marks its right range `Add`, `replace`
      marks it `Change`. */
  function RightOf(op: Opcode): seq<Entry> {
    match op.tag
    case OpInsert => Run(op.j1, op.j2, Add)
    case OpReplace => Run(op.j1, op.j2, Change)
    case _ => []
  }

  function LeftEntries(ops: seq<Opcode>): seq<Entry> { FlatMap(ops, LeftOf) }

  function RightEntries(ops: seq<Opcode>): seq<Entry> { FlatMap(ops, RightOf) }

  /** The entries whose index is below `n` (`if i < len(word_info)`), in order. */
  function Within(es: seq<Entry>, n: nat): (r: seq<Entry>)
    ensures |r| <= |es|
    ensures forall k | 0 <= k < |r| :: r[k].index < n && r[k] in es
  {
    if es == [] then []
    else Within(es[..|es| - 1], n) + (if es[|es| - 1].index < n then [es[|es| - 1]] else [])
  }

  lemma {:induction false} WithinMembers(es: seq<Entry>, n: nat, e: Entry)
    ensures e in Within(es, n) <==> e in es && e.index < n
  {
    if es != [] {
      var init := es[..|es| - 1];
      WithinMembers(init, n, e);
      assert es == init + [es[|es| - 1]];
    }
  }

  /** Where opcode `op` puts entry `e` on the left. */
  predicate LeftMark(op: Opcode, e: Entry) {
    && op.i1 <= e.index < op.i2
    && ((op.tag == OpDelete && e.kind == Delete) || (op.tag == OpReplace && e.kind == Change))
  }

  /** Where opcode `op` puts entry `e` on the right. */
  predicate RightMark(op: Opcode, e: Entry) {
    && op.j1 <= e.index < op.j2
    && ((op.tag == OpInsert && e.kind == Add) || (op.tag == OpReplace && e.kind == Change))
  }

  lemma RunMembers(lo: nat, hi: nat, kind: DiffKind, e: Entry)
    ensures e in Run(lo, hi, kind) <==> lo <= e.index < hi && e.kind == kind
  {
    if lo <= e.index < hi && e.kind == kind {
      assert Run(lo, hi, kind)[e.index - lo] == e;
    }
  }

  /** A left entry is exactly an index some `delete` or `replace` covers,
      marked with that opcode's kind. */
  lemma LeftEntriesSpec(ops: seq<Opcode>, e: Entry)
    ensures e in LeftEntries(ops) <==> exists k | 0 <= k < |ops| :: LeftMark(ops[k], e)
  {
    FlatMapMembers(ops, LeftOf, e);
    forall k | 0 <= k < |ops| ensures e in LeftOf(ops[k]) <==> LeftMark(ops[k], e) {
      var op := ops[k];
      if op.tag == OpDelete {
        RunMembers(op.i1, op.i2, Delete, e);
      } else if op.tag == OpReplace {
        RunMembers(op.i1, op.i2, Change, e);
      }
    }
  }

  /** A right entry is exactly an index some `insert` or `replace` covers,
      marked with that opcode's kind. */
  lemma RightEntriesSpec(ops: seq<Opcode>, e: Entry)
    ensures e in RightEntries(ops) <==> exists k | 0 <= k < |ops| :: RightMark(ops[k], e)
  {
    FlatMapMembers(ops, RightOf, e);
    forall k | 0 <= k < |ops| ensures e in RightOf(ops[k]) <==> RightMark(ops[k], e) {
      var op := ops[k];
      if op.tag == OpInsert {
        RunMembers(op.j1, op.j2, Add, e);
      } else if op.tag == OpReplace {
        RunMembers(op.j1, op.j2, Change, e);
      }
    }
  }

  /** When every opcode is `equal`, nothing is marked on either side. */
  lemma {:induction false} EqualOpsMarkNothing(ops: seq<Opcode>)
    requires forall k | 0 <= k < |ops| :: ops[k].tag == OpEqual
    ensures LeftEntries(ops) == [] && RightEntries(ops) == []
  {
    if ops != [] {
      EqualOpsMarkNothing(ops[..|ops| - 1]);
    }
  }

  // ---------------------------------------------------------------------
  // Highlights
  // ---------------------------------------------------------------------

  /** A difference to paint: the word, its kind, and where it sits. */
  datatype Marked = Marked(word: string, kind: DiffKind, box: BBox, page: nat)

  /** The entries of `es`, each dressed with the rectangle and page of its
      word in `info` and labelled with its word in `labels`. */
  function Locate(es: seq<Entry>, info: seq<WordBox>, labels: seq<string>): (r: seq<Marked>)
    requires forall k | 0 <= k < |es| :: es[k].index < |info| && es[k].index < |labels|
    ensures |r| == |es|
    ensures forall k | 0 <= k < |es| :: r[k] == Dress(es[k], info, labels)
  {
    seq(|es|, k requires 0 <= k < |es| => Dress(es[k], info, labels))
  }

  function Dress(e: Entry, info: seq<WordBox>, labels: seq<string>): Marked
    requires e.index < |info| && e.index < |labels|
  {
    Marked(labels[e.index], e.kind, info[e.index].box, info[e.index].page)
  }

  /** Locating one more entry appends its highlight. */
  lemma LocateSnoc(es: seq<Entry>, info: seq<WordBox>, labels: seq<string>)
    requires es != []
    requires forall k | 0 <= k < |es| :: es[k].index < |info| && es[k].index < |labels|
    ensures Locate(es, info, labels) == Locate(es[..|es| - 1], info, labels) + [Dress(es[|es| - 1], info, labels)]
  {
  }

  lemma LocateMembers(es: seq<Entry>, info: seq<WordBox>, labels: seq<string>, d: Marked)
    requires forall k | 0 <= k < |es| :: es[k].index < |info| && es[k].index < |labels|
    ensures d in Locate(es, info, labels) <==> exists k | 0 <= k < |es| :: d == Dress(es[k], info, labels)
  {
    var r := Locate(es, info, labels);
    if d in r {
      var k :| 0 <= k < |r| && r[k] == d;
    }
  }

  /** Which entries `Within(es, n)` keeps, given those of `es`. */
  lemma WithinLocated(es: seq<Entry>, n: nat, info: seq<WordBox>, labels: seq<string>, d: Marked)
    requires n <= |info| && n <= |labels|
    ensures d in Locate(Within(es, n), info, labels) <==>
      exists i | 0 <= i < n :: Entry(i, d.kind) in es && d == Dress(Entry(i, d.kind), info, labels)
  {
    var w := Within(es, n);
    LocateMembers(w, info, labels, d);
    if d in Locate(w, info, labels) {
      var k :| 0 <= k < |w| && d == Dress(w[k], info, labels);
      WithinMembers(es, n, w[k]);
      assert w[k] == Entry(w[k].index, d.kind);
    }
    if exists i | 0 <= i < n :: Entry(i, d.kind) in es && d == Dress(Entry(i, d.kind), info, labels) {
      var i :| 0 <= i < n && Entry(i, d.kind) in es && d == Dress(Entry(i, d.kind), info, labels);
      WithinMembers(es, n, Entry(i, d.kind));
      var k :| 0 <= k < |w| && w[k] == Entry(i, d.kind);
    }
  }

  /** A left highlight is exactly a word below `n` that some `delete` or
      `replace` covers, with that opcode's kind, its label, rectangle and page. */
  lemma LeftLocated(ops: seq<Opcode>, n: nat, info: seq<WordBox>, labels: seq<string>, d: Marked)
    requires n <= |info| && n <= |labels|
    ensures d in Locate(Within(LeftEntries(ops), n), info, labels) <==>
      exists o, i | 0 <= o < |ops| && 0 <= i < n ::
        LeftMark(ops[o], Entry(i, d.kind)) && d == Dress(Entry(i, d.kind), info, labels)
  {
    WithinLocated(LeftEntries(ops), n, info, labels, d);
    forall i | 0 <= i < n ensures Entry(i, d.kind) in LeftEntries(ops) <==>
        exists o | 0 <= o < |ops| :: LeftMark(ops[o], Entry(i, d.kind)) {
      LeftEntriesSpec(ops, Entry(i, d.kind));
    }
  }

  /** A right highlight is exactly a word below `n` that some `insert` or
      `replace` covers, with that opcode's kind, its label, rectangle and page. */
  lemma RightLocated(ops: seq<Opcode>, n: nat, info: seq<WordBox>, labels: seq<string>, d: Marked)
    requires n <= |info| && n <= |labels|
    ensures d in Locate(Within(RightEntries(ops), n), info, labels) <==>
      exists o, i | 0 <= o < |ops| && 0 <= i < n ::
        RightMark(ops[o], Entry(i, d.kind)) && d == Dress(Entry(i, d.kind), info, labels)
  {
    WithinLocated(RightEntries(ops), n, info, labels, d);
    forall i | 0 <= i < n ensures Entry(i, d.kind) in RightEntries(ops) <==>
        exists o | 0 <= o < |ops| :: RightMark(ops[o], Entry(i, d.kind)) {
      RightEntriesSpec(ops, Entry(i, d.kind));
    }
  }

  /** One line of the result list: the kind of difference and the word it names. */
  datatype Message = Message(kind: DiffKind, word: string)

  /** The entries of `es` as result-list lines naming their words in `labels`. */
  function Say(es: seq<Entry>, labels: seq<string>): (r: seq<Message>)
    requires forall k | 0 <= k < |es| :: es[k].index < |labels|
    ensures |r| == |es|
    ensures forall k | 0 <= k < |es| :: r[k] == Message(es[k].kind, labels[es[k].index])
  {
    seq(|es|, k requires 0 <= k < |es| => Message(es[k].kind, labels[es[k].index]))
  }

  /** What a comparison produces: the result-list lines and the differences
      to paint on each side. */
  datatype Comparison = Comparison(messages: seq<Message>, left: seq<Marked>, right: seq<Marked>)

  /** The outcome of pressing "compare": a warning when either side has no
      selected text, otherwise the comparison. */
  datatype Verdict = AskForSelections | Compared(c: Comparison)

  /** Which reading of a viewer's code a comparison follows: the code as
      written, or the behaviour its authors evidently intended where the two
      differ. */
  datatype Reading = AsWritten | Intended

  /** The words of a side as the comparison sees them: its selected text,
      normalised and split. */
  function Words(text: string): seq<string> {
    Split(NormalizeLines(text))
  }

  /** Every left entry lies below the left length the opcodes are valid for. */
  lemma LeftEntriesBounded(ops: seq<Opcode>, n: nat, m: nat)
    requires ValidOpcodes(ops, n, m)
    ensures forall k | 0 <= k < |LeftEntries(ops)| :: LeftEntries(ops)[k].index < n
  {
    forall k | 0 <= k < |LeftEntries(ops)| ensures LeftEntries(ops)[k].index < n {
      LeftEntriesSpec(ops, LeftEntries(ops)[k]);
    }
  }

  /** Every right entry lies below the right length the opcodes are valid for. */
  lemma RightEntriesBounded(ops: seq<Opcode>, n: nat, m: nat)
    requires ValidOpcodes(ops, n, m)
    ensures forall k | 0 <= k < |RightEntries(ops)| :: RightEntries(ops)[k].index < m
  {
    forall k | 0 <= k < |RightEntries(ops)| ensures RightEntries(ops)[k].index < m {
      RightEntriesSpec(ops, RightEntries(ops)[k]);
    }
  }

  /** A bound the entries already respect removes none of them. */
  lemma {:induction false} WithinAll(es: seq<Entry>, n: nat)
    requires forall k | 0 <= k < |es| :: es[k].index < n
    ensures Within(es, n) == es
  {
    if es != [] {
      WithinAll(es[..|es| - 1], n);
    }
  }

  /** A bound the entries already respect can be lowered to it. */
  lemma {:induction false} WithinTighter(es: seq<Entry>, n: nat, m: nat)
    requires forall k | 0 <= k < |es| :: es[k].index < m
    ensures Within(es, n) == Within(es, Min(n, m))
  {
    if es != [] {
      WithinTighter(es[..|es| - 1], n, m);
    }
  }

  /** The three highlight colours a viewer uses. */
  datatype Palette = Palette(add: Rgba, delete: Rgba, change: Rgba)

  /** The colours of the plain-append viewers: translucent green, red, orange. */
  const OrangePalette := Palette(Rgba(0, 255, 0, 120), Rgba(255, 0, 0, 120), Rgba(255, 200, 0, 120))

  /** The colours of the sentence viewer: lighter green, red, yellow. */
  const YellowPalette := Palette(Rgba(0, 255, 0, 100), Rgba(255, 0, 0, 100), Rgba(255, 255, 0, 100))

  /** `add` is green, `delete` red, anything else the third colour. */
  function ColorOf(p: Palette, kind: DiffKind): Rgba {
    match kind
    case Add => p.add
    case Delete => p.delete
    case Change => p.change
  }

  /** A painted highlight: rectangle, colour and the word it marks. */
  datatype Mark = Mark(box: BBox, color: Rgba, word: string)

  /** The per-page highlight lists (`word_highlights`). */
  type Marks = map<nat, seq<Mark>>

  function MarkOf(d: Marked, p: Palette): Mark {
    Mark(d.box, ColorOf(p, d.kind), d.word)
  }

  /** `highlight_word_differences` without clearing: each difference is
      appended, in order, to its page's list. */
  function Paint(marks: Marks, ds: seq<Marked>, p: Palette): Marks {
    if ds == [] then marks
    else
      var d := ds[|ds| - 1];
      AppendAt(Paint(marks, ds[..|ds| - 1], p), d.page, MarkOf(d, p))
  }

  /** A page's list, or the empty list when the page has none. */
  function Get(marks: Marks, page: nat): seq<Mark> {
    if page in marks then marks[page] else []
  }

  /** The marks of the differences on `page`, in order. */
  function MarksOn(ds: seq<Marked>, page: nat, p: Palette): (r: seq<Mark>)
    ensures |r| <= |ds|
  {
    if ds == [] then []
    else
      var d := ds[|ds| - 1];
      MarksOn(ds[..|ds| - 1], page, p) + (if d.page == page then [MarkOf(d, p)] else [])
  }

  /** Painting keeps each page's earlier highlights and appends the new ones
      for that page after them. */
  lemma {:induction false} PaintSpec(marks: Marks, ds: seq<Marked>, p: Palette, page: nat)
    ensures Get(Paint(marks, ds, p), page) == Get(marks, page) + MarksOn(ds, page, p)
  {
    if ds != [] {
      PaintSpec(marks, ds[..|ds| - 1], p, page);
    }
  }

  /** Painting adds a page only when some difference lies on it. */
  lemma {:induction false} PaintPages(marks: Marks, ds: seq<Marked>, p: Palette, page: nat)
    ensures page in Paint(marks, ds, p) <==> page in marks || exists k | 0 <= k < |ds| :: ds[k].page == page
  {
    if ds != [] {
      var init := ds[..|ds| - 1];
      PaintPages(marks, init, p, page);
      if exists k | 0 <= k < |init| :: init[k].page == page {
        var k :| 0 <= k < |init| && init[k].page == page;
        assert ds[k] == init[k];
      }
      if exists k | 0 <= k < |ds| :: ds[k].page == page {
        var k :| 0 <= k < |ds| && ds[k].page == page;
        if k < |init| { assert init[k] == ds[k]; }
      }
    }
  }

  /** Each painted mark carries the colour of its difference's kind. */
  lemma {:induction false} MarksOnColors(ds: seq<Marked>, page: nat, p: Palette, m: Mark)
    requires m in MarksOn(ds, page, p)
    ensures exists k | 0 <= k < |ds| :: ds[k].page == page && m == Mark(ds[k].box, ColorOf(p, ds[k].kind), ds[k].word)
  {
    var init := ds[..|ds| - 1];
    if m in MarksOn(init, page, p) {
      MarksOnColors(init, page, p, m);
      var k :| 0 <= k < |init| && init[k].page == page && m == Mark(init[k].box, ColorOf(p, init[k].kind), init[k].word);
      assert ds[k] == init[k];
    } else {
      assert ds[|ds| - 1].page == page;
    }
  }
}
