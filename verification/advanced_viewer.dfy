/** The sentence viewer of `pdf_text_compare_advanced.py`: the selection is
    kept as sentences of words, each word carrying its span's rectangle;
    differences are found by word index and located by walking the
    sentences, and every comparison replaces the highlights shown before. */
module AdvancedViewer {
  import opened Basics
  import opened Text
  import opened WordViews

  // ---------------------------------------------------------------------
  // Sentence extraction
  // ---------------------------------------------------------------------

  /** A text span the library reports: its text and rectangle. */
  datatype Span = Span(text: string, box: BBox)

  /** The words of one span that meets the selection: its stripped text
      split at whitespace, each word carrying the span's rectangle and the
      page. */
  function SpanWords(s: Span, page: nat): (r: seq<WordBox>)
    ensures AllWords(Texts(r))
    ensures forall k | 0 <= k < |r| :: r[k].box == s.box && r[k].page == page
  {
    var t := Strip(s.text);
    if t == [] then []
    else
      var ws := Split(t);
      SplitWords(t);
      seq(|ws|, k requires 0 <= k < |ws| => WordBox(ws[k], s.box, page))
  }

  /** The selected words of the spans that meet the selection, in order. */
  function SelectedWords(spans: seq<Span>, page: nat): seq<WordBox> {
    FlatMap(spans, (s: Span) => SpanWords(s, page))
  }

  /** Every selected word is non-empty and whitespace-free. */
  lemma SelectedWordsAreWords(spans: seq<Span>, page: nat)
    ensures AllWords(Texts(SelectedWords(spans, page)))
  {
    var ws := SelectedWords(spans, page);
    forall k | 0 <= k < |ws| ensures IsWord(ws[k].text) {
      FlatMapMembers(spans, (s: Span) => SpanWords(s, page), ws[k]);
      var j :| 0 <= j < |spans| && ws[k] in SpanWords(spans[j], page);
      var r := SpanWords(spans[j], page);
      var i :| 0 <= i < |r| && r[i] == ws[k];
      assert IsWord(Texts(r)[i]);
    }
  }

  /** `extract_sentences_in_selection`, given the spans that meet the
      selection: the sentences, which cut the selected words at sentence
      ends, and the selection's text, which is those words joined with
      single spaces and which the comparison splits back into exactly
      those words. */
  function ExtractSentences(spans: seq<Span>, page: nat): (r: (seq<seq<WordBox>>, string))
    ensures IsSentenceSplit(r.0, SelectedWords(spans, page))
    ensures r.1 == Join(" ", Texts(SelectedWords(spans, page)))
    ensures Words(r.1) == Texts(SelectedWords(spans, page))
  {
    var ws := SelectedWords(spans, page);
    SentencesSplit(ws);
    SelectedTextJoin(ws);
    SelectedWordsAreWords(spans, page);
    WordsAligned(ws);
    var ss := Sentences(ws);
    (ss, SentencesText(ss))
  }

  // ---------------------------------------------------------------------
  // Opcode expansion
  // ---------------------------------------------------------------------

  /** The differences of a comparison, before they are located: result-list
      lines and the marked word indices of each side. */
  datatype Expansion = Expansion(messages: seq<Message>, left: seq<Entry>, right: seq<Entry>)

  /** A `replace` whose left range is longer than what remains of the right
      words from `j1` on: its result lines pair left word `i` with right word
      `j1 + (i - i1)`, which runs off the end. */
  predicate Overruns(op: Opcode, m: nat) {
    op.tag == OpReplace && op.i1 < op.i2 && op.j1 + (op.i2 - op.i1) > m
  }

  /** The result-list lines of one opcode: its inserted words, or its
      deleted or replaced left words. */
  function SaidOf(op: Opcode, wl: seq<string>, wr: seq<string>): seq<Message>
    requires op.i1 <= op.i2 <= |wl| && op.j1 <= op.j2 <= |wr|
  {
    match op.tag
    case OpInsert => Say(RightOf(op), wr)
    case _ => Say(LeftOf(op), wl)
  }

  /** The opcode loop of `compare_texts` over the first `n` opcodes: `None`
      when a `replace` line indexes past the right words, which raises and
      abandons the comparison. */
  function ExpandUpTo(ops: seq<Opcode>, n: nat, wl: seq<string>, wr: seq<string>): Option<Expansion>
    requires n <= |ops| && ValidOpcodes(ops, |wl|, |wr|)
  {
    if n == 0 then Some(Expansion([], [], []))
    else
      var op := ops[n - 1];
      match ExpandUpTo(ops, n - 1, wl, wr)
      case None => None
      case Some(x) =>
        if Overruns(op, |wr|) then None
        else Some(Expansion(x.messages + SaidOf(op, wl, wr), x.left + LeftOf(op), x.right + RightOf(op)))
  }

  function Expand(ops: seq<Opcode>, wl: seq<string>, wr: seq<string>): Option<Expansion>
    requires ValidOpcodes(ops, |wl|, |wr|)
  {
    ExpandUpTo(ops, |ops|, wl, wr)
  }

  /** The entries of the first `n` opcodes. */
  lemma LeftEntriesPrefix(ops: seq<Opcode>, n: nat)
    requires 0 < n <= |ops|
    ensures LeftEntries(ops[..n]) == LeftEntries(ops[..n - 1]) + LeftOf(ops[n - 1])
    ensures RightEntries(ops[..n]) == RightEntries(ops[..n - 1]) + RightOf(ops[n - 1])
  {
    assert ops[..n][..n - 1] == ops[..n - 1];
  }

  /** Some of the first `n` opcodes overruns `m` right words. */
  predicate OverrunBefore(ops: seq<Opcode>, n: nat, m: nat)
    requires n <= |ops|
  {
    n > 0 && (OverrunBefore(ops, n - 1, m) || Overruns(ops[n - 1], m))
  }

  lemma {:induction false} OverrunBeforeIff(ops: seq<Opcode>, n: nat, m: nat)
    requires n <= |ops|
    ensures OverrunBefore(ops, n, m) <==> exists k | 0 <= k < n :: Overruns(ops[k], m)
  {
    if n > 0 {
      OverrunBeforeIff(ops, n - 1, m);
      if exists k | 0 <= k < n :: Overruns(ops[k], m) {
        var k :| 0 <= k < n && Overruns(ops[k], m);
        if k < n - 1 {
          assert exists k' | 0 <= k' < n - 1 :: Overruns(ops[k'], m);
        }
      }
    }
  }

  /** The first `n` opcodes are abandoned exactly when one of them overruns. */
  lemma {:induction false} ExpandUpToAbandons(ops: seq<Opcode>, n: nat, wl: seq<string>, wr: seq<string>)
    requires n <= |ops| && ValidOpcodes(ops, |wl|, |wr|)
    ensures ExpandUpTo(ops, n, wl, wr).None? <==> OverrunBefore(ops, n, |wr|)
  {
    if n > 0 {
      ExpandUpToAbandons(ops, n - 1, wl, wr);
      ExpandUpToStep(ops, n, wl, wr);
    }
  }

  /** One more opcode abandons exactly when the earlier ones did or it overruns. */
  lemma ExpandUpToStep(ops: seq<Opcode>, n: nat, wl: seq<string>, wr: seq<string>)
    requires 0 < n <= |ops| && ValidOpcodes(ops, |wl|, |wr|)
    ensures ExpandUpTo(ops, n, wl, wr).None? <==>
      ExpandUpTo(ops, n - 1, wl, wr).None? || Overruns(ops[n - 1], |wr|)
  {
  }

  /** Unless abandoned, the first `n` opcodes mark the entries they cover. */
  lemma {:induction false} ExpandUpToEntries(ops: seq<Opcode>, n: nat, wl: seq<string>, wr: seq<string>)
    requires n <= |ops| && ValidOpcodes(ops, |wl|, |wr|)
    ensures ExpandUpTo(ops, n, wl, wr).Some? ==>
      ExpandUpTo(ops, n, wl, wr).value.left == LeftEntries(ops[..n]) &&
      ExpandUpTo(ops, n, wl, wr).value.right == RightEntries(ops[..n])
  {
    if n > 0 {
      ExpandUpToEntries(ops, n - 1, wl, wr);
      LeftEntriesPrefix(ops, n);
    }
  }

  /** The comparison is abandoned exactly when some `replace` overruns the
      right words; otherwise every covered index of each side is marked,
      in opcode order. */
  lemma ExpandSpec(ops: seq<Opcode>, wl: seq<string>, wr: seq<string>)
    requires ValidOpcodes(ops, |wl|, |wr|)
    ensures Expand(ops, wl, wr).None? <==> exists k | 0 <= k < |ops| :: Overruns(ops[k], |wr|)
    ensures Expand(ops, wl, wr).Some? ==>
      Expand(ops, wl, wr).value.left == LeftEntries(ops) && Expand(ops, wl, wr).value.right == RightEntries(ops)
  {
    ExpandUpToAbandons(ops, |ops|, wl, wr);
    OverrunBeforeIff(ops, |ops|, |wr|);
    ExpandUpToEntries(ops, |ops|, wl, wr);
    assert ops[..|ops|] == ops;
  }

  /** Replacing two left words by one right word abandons the comparison. */
  lemma LongReplaceFails(a: string, b: string, c: string)
    ensures Expand([Opcode(OpReplace, 0, 2, 0, 1)], [a, b], [c]).None?
  {
    var ops := [Opcode(OpReplace, 0, 2, 0, 1)];
    ExpandSpec(ops, [a, b], [c]);
    assert Overruns(ops[0], 1);
  }

  // ---------------------------------------------------------------------
  // Locating a word index
  // ---------------------------------------------------------------------

  /** The inner loop over one sentence's words: counting positions from
      `at`, it stops at the word at position `target` and leaves the count
      there; otherwise the count moves past the sentence. */
  function ScanSentence(s: seq<WordBox>, target: nat, at: nat): (seq<WordBox>, nat) {
    if s == [] then ([], at)
    else if at == target then ([s[0]], at)
    else ScanSentence(s[1..], target, at + 1)
  }

  lemma {:induction false} ScanSentenceSpec(s: seq<WordBox>, target: nat, at: nat)
    ensures ScanSentence(s, target, at) ==
      if at <= target < at + |s| then ([s[target - at]], target) else ([], at + |s|)
  {
    if s != [] && at != target {
      ScanSentenceSpec(s[1..], target, at + 1);
    }
  }

  /** The lookup as written: the `break` leaves only the inner loop, so the
      count stays on the target and every later sentence's first word
      matches as well. */
  function ScanAsWritten(ss: seq<seq<WordBox>>, target: nat, at: nat): seq<WordBox> {
    if ss == [] then []
    else
      var (hit, next) := ScanSentence(ss[0], target, at);
      hit + ScanAsWritten(ss[1..], target, next)
  }

  function LookupAsWritten(ss: seq<seq<WordBox>>, target: nat): seq<WordBox> {
    ScanAsWritten(ss, target, 0)
  }

  /** The lookup as intended: the first match ends the search. */
  function Scan(ss: seq<seq<WordBox>>, target: nat, at: nat): seq<WordBox> {
    if ss == [] then []
    else
      var (hit, next) := ScanSentence(ss[0], target, at);
      if hit != [] then hit else Scan(ss[1..], target, next)
  }

  function Lookup(ss: seq<seq<WordBox>>, target: nat): seq<WordBox> {
    Scan(ss, target, 0)
  }

  lemma {:induction false} ScanSpec(ss: seq<seq<WordBox>>, target: nat, at: nat)
    ensures Scan(ss, target, at) ==
      if at <= target < at + |Flatten(ss)| then [Flatten(ss)[target - at]] else []
  {
    if ss != [] {
      var s := ss[0];
      ScanSentenceSpec(s, target, at);
      FlattenCons(s, ss[1..]);
      assert [s] + ss[1..] == ss;
      if !(at <= target < at + |s|) {
        ScanSpec(ss[1..], target, at + |s|);
      }
    } else {
      assert Flatten(ss) == [];
    }
  }

  /** The intended lookup finds word `target` of the selection, and nothing
      when there is no such word. */
  lemma LookupSpec(ss: seq<seq<WordBox>>, target: nat)
    ensures Lookup(ss, target) == if target < |Flatten(ss)| then [Flatten(ss)[target]] else []
  {
    ScanSpec(ss, target, 0);
  }

  /** The first word of each non-empty sentence. */
  function Firsts(ss: seq<seq<WordBox>>): seq<WordBox> {
    if ss == [] then [] else (if ss[0] == [] then [] else [ss[0][0]]) + Firsts(ss[1..])
  }

  /** Once the count sits on the target, the lookup as written takes the
      first word of every remaining sentence. */
  lemma {:induction false} ScanFromTarget(ss: seq<seq<WordBox>>, target: nat)
    ensures ScanAsWritten(ss, target, target) == Firsts(ss)
  {
    if ss != [] {
      ScanFromTarget(ss[1..], target);
    }
  }

  /** The lookup as written always starts with what the intended one finds,
      and finds nothing when the intended one finds nothing. */
  lemma {:induction false} AsWrittenExtends(ss: seq<seq<WordBox>>, target: nat, at: nat)
    ensures var fixed := Scan(ss, target, at);
      var written := ScanAsWritten(ss, target, at);
      |fixed| <= |written| && written[..|fixed|] == fixed && (fixed == [] ==> written == [])
  {
    if ss != [] {
      var (hit, next) := ScanSentence(ss[0], target, at);
      AsWrittenExtends(ss[1..], target, next);
    }
  }

  /** Reading one more word. */
  lemma GatherStep(ws: seq<WordBox>, x: WordBox)
    ensures Gather(ws + [x]) ==
      if EndsSentence(x.text) then (Gather(ws).0 + [Gather(ws).1 + [x]], [])
      else (Gather(ws).0, Gather(ws).1 + [x])
  {
    assert (ws + [x])[..|ws|] == ws;
  }

  /** A sentence-ending word followed by one that is not makes two
      sentences. */
  lemma TwoSentences(a: WordBox, b: WordBox)
    requires EndsSentence(a.text) && !EndsSentence(b.text)
    ensures Sentences([a, b]) == [[a], [b]]
  {
    var none: seq<WordBox> := [];
    var nothing: seq<seq<WordBox>> := [];
    assert Gather(none) == (nothing, none);
    GatherStep(none, a);
    assert none + [a] == [a];
    assert nothing + [[a]] == [[a]];
    assert Gather([a]) == ([[a]], none);
    GatherStep([a], b);
    assert [a] + [b] == [a, b];
    assert none + [b] == [b];
    assert Gather([a, b]) == ([[a]], [b]);
    assert [[a]] + [[b]] == [[a], [b]];
  }

  /** With sentences "a." and "b", looking up word 0 as written marks both
      words, while the intended lookup marks only the first. */
  lemma ExtraHighlight(a: WordBox, b: WordBox)
    ensures LookupAsWritten([[a], [b]], 0) == [a, b]
    ensures Lookup([[a], [b]], 0) == [a]
  {
    var ss := [[a], [b]];
    assert ss[1..] == [[b]];
    assert ScanSentence([a], 0, 0) == ([a], 0);
    ScanFromTarget([[b]], 0);
    assert Firsts([[b]]) == [b] by {
      assert [[b]][1..] == [];
    }
  }

  /** The sentences after the one that holds word `t` of the selection. */
  function Later(ss: seq<seq<WordBox>>, t: nat): seq<seq<WordBox>> {
    if ss == [] then []
    else if t < |ss[0]| then ss[1..]
    else Later(ss[1..], t - |ss[0]|)
  }

  /** The position in the selection of the first word of sentence `k`. */
  function Start(ss: seq<seq<WordBox>>, k: nat): nat
    requires k <= |ss|
  {
    |Flatten(ss[..k])|
  }

  /** Sentence `k` holds word `t` of the selection. */
  predicate Holds(ss: seq<seq<WordBox>>, k: nat, t: nat) {
    k < |ss| && Start(ss, k) <= t < Start(ss, k) + |ss[k]|
  }

  /** The sentences after the one holding word `t` are those after its
      index. */
  lemma {:induction false} LaterHolds(ss: seq<seq<WordBox>>, k: nat, t: nat)
    requires Holds(ss, k, t)
    ensures Later(ss, t) == ss[k + 1..]
  {
    if k == 0 {
      assert ss[..0] == [];
    } else {
      var rest := ss[1..];
      assert Start(ss, k) == |ss[0]| + Start(rest, k - 1) by {
        assert ss[..k] == [ss[0]] + rest[..k - 1];
        FlattenCons(ss[0], rest[..k - 1]);
      }
      LaterHolds(rest, k - 1, t - |ss[0]|);
      assert rest[k..] == ss[k + 1..];
    }
  }

  /** The scan as written, when the target lies in the first sentence. */
  lemma ScanHere(ss: seq<seq<WordBox>>, target: nat, at: nat)
    requires ss != [] && at <= target < at + |ss[0]|
    ensures target - at < |Flatten(ss)|
    ensures ScanAsWritten(ss, target, at) == [Flatten(ss)[target - at]] + Firsts(Later(ss, target - at))
  {
    var s, rest := ss[0], ss[1..];
    var t := target - at;
    ScanSentenceSpec(s, target, at);
    assert Flatten(ss) == s + Flatten(rest) by {
      assert [s] + rest == ss;
      FlattenCons(s, rest);
    }
    assert ScanAsWritten(ss, target, at) == [s[t]] + ScanAsWritten(rest, target, target);
    ScanFromTarget(rest, target);
  }

  /** The scan as written, when the target lies past the first sentence. */
  lemma ScanPast(ss: seq<seq<WordBox>>, target: nat, at: nat)
    requires ss != [] && at + |ss[0]| <= target
    ensures ScanAsWritten(ss, target, at) == ScanAsWritten(ss[1..], target, at + |ss[0]|)
    ensures Later(ss, target - at) == Later(ss[1..], target - (at + |ss[0]|))
    ensures |Flatten(ss)| == |ss[0]| + |Flatten(ss[1..])|
    ensures target - at < |Flatten(ss)| ==>
      Flatten(ss)[target - at] == Flatten(ss[1..])[target - (at + |ss[0]|)]
  {
    var s, rest := ss[0], ss[1..];
    ScanSentenceSpec(s, target, at);
    assert Flatten(ss) == s + Flatten(rest) by {
      assert [s] + rest == ss;
      FlattenCons(s, rest);
    }
  }

  lemma {:induction false} ScanAsWrittenSpec(ss: seq<seq<WordBox>>, target: nat, at: nat)
    requires at <= target
    ensures ScanAsWritten(ss, target, at) ==
      if target - at < |Flatten(ss)| then [Flatten(ss)[target - at]] + Firsts(Later(ss, target - at)) else []
  {
    if ss == [] {
      assert Flatten(ss) == [];
    } else if target - at < |ss[0]| {
      ScanHere(ss, target, at);
    } else {
      ScanPast(ss, target, at);
      ScanAsWrittenSpec(ss[1..], target, at + |ss[0]|);
    }
  }

  /** The lookup as written finds word `target` of the selection and then
      the first word of every later sentence, and nothing when there is no
      such word. */
  lemma LookupAsWrittenSpec(ss: seq<seq<WordBox>>, target: nat)
    ensures LookupAsWritten(ss, target) ==
      if target < |Flatten(ss)| then [Flatten(ss)[target]] + Firsts(Later(ss, target)) else []
  {
    ScanAsWrittenSpec(ss, target, 0);
  }

  // ---------------------------------------------------------------------
  // Highlights
  // ---------------------------------------------------------------------

  /** The lookup a reading follows. */
  function Find(ss: seq<seq<WordBox>>, target: nat, reading: Reading): seq<WordBox> {
    if reading.AsWritten? then LookupAsWritten(ss, target) else Lookup(ss, target)
  }

  /** Highlights at the words `hits`, each labelled as the difference `e`. */
  function Label(hits: seq<WordBox>, e: Entry, words: seq<string>): (r: seq<Marked>)
    requires e.index < |words|
    ensures |r| == |hits|
    ensures forall k | 0 <= k < |hits| :: r[k] == Marked(words[e.index], e.kind, hits[k].box, hits[k].page)
  {
    seq(|hits|, k requires 0 <= k < |hits| => Marked(words[e.index], e.kind, hits[k].box, hits[k].page))
  }

  /** The located differences of one side: each entry becomes a highlight
      for every word the lookup returns, labelled with the compared word. */
  function Locations(ss: seq<seq<WordBox>>, es: seq<Entry>, words: seq<string>, reading: Reading): seq<Marked>
    requires forall k | 0 <= k < |es| :: es[k].index < |words|
  {
    if es == [] then []
    else Locations(ss, es[..|es| - 1], words, reading) + Place(ss, es[|es| - 1], words, reading)
  }

  function Place(ss: seq<seq<WordBox>>, e: Entry, words: seq<string>, reading: Reading): seq<Marked>
    requires e.index < |words|
  {
    Label(Find(ss, e.index, reading), e, words)
  }

  /** As intended, when every index names a selected word, each difference
      is located at exactly its own word's rectangle and page. */
  lemma {:induction false} LocationsExact(ss: seq<seq<WordBox>>, es: seq<Entry>, words: seq<string>)
    requires forall k | 0 <= k < |es| :: es[k].index < |words| && es[k].index < |Flatten(ss)|
    ensures Locations(ss, es, words, Intended) == Locate(es, Flatten(ss), words)
  {
    if es != [] {
      var e := es[|es| - 1];
      var init := es[..|es| - 1];
      assert Locations(ss, es, words, Intended) == Locations(ss, init, words, Intended) + Place(ss, e, words, Intended);
      LocationsExact(ss, init, words);
      assert Place(ss, e, words, Intended) == [Dress(e, Flatten(ss), words)] by {
        LookupSpec(ss, e.index);
      }
      LocateSnoc(es, Flatten(ss), words);
    }
  }

  /** What one difference highlights as written: its own word, then the
      first word of every later sentence, all labelled as that difference. */
  function Echo(ss: seq<seq<WordBox>>, e: Entry, words: seq<string>): seq<Marked>
    requires e.index < |words| && e.index < |Flatten(ss)|
  {
    [Dress(e, Flatten(ss), words)] + Label(Firsts(Later(ss, e.index)), e, words)
  }

  /** The echoes of all the differences, in order. */
  function Spread(ss: seq<seq<WordBox>>, es: seq<Entry>, words: seq<string>): seq<Marked>
    requires forall k | 0 <= k < |es| :: es[k].index < |words| && es[k].index < |Flatten(ss)|
  {
    if es == [] then []
    else Spread(ss, es[..|es| - 1], words) + Echo(ss, es[|es| - 1], words)
  }

  /** As written, when every index names a selected word, each difference
      highlights its own word and the first word of every later sentence. */
  lemma {:induction false} LocationsSpread(ss: seq<seq<WordBox>>, es: seq<Entry>, words: seq<string>)
    requires forall k | 0 <= k < |es| :: es[k].index < |words| && es[k].index < |Flatten(ss)|
    ensures Locations(ss, es, words, AsWritten) == Spread(ss, es, words)
  {
    if es != [] {
      var e := es[|es| - 1];
      var init := es[..|es| - 1];
      assert Locations(ss, es, words, AsWritten) == Locations(ss, init, words, AsWritten) + Place(ss, e, words, AsWritten);
      LocationsSpread(ss, init, words);
      assert Place(ss, e, words, AsWritten) == Echo(ss, e, words) by {
        PlaceAsWritten(ss, e, words);
      }
      assert Spread(ss, es, words) == Spread(ss, init, words) + Echo(ss, e, words);
    }
  }

  /** As written, one difference highlights exactly its echo. */
  lemma PlaceAsWritten(ss: seq<seq<WordBox>>, e: Entry, words: seq<string>)
    requires e.index < |words| && e.index < |Flatten(ss)|
    ensures Place(ss, e, words, AsWritten) == Echo(ss, e, words)
  {
    var first := [Flatten(ss)[e.index]];
    var rest := Firsts(Later(ss, e.index));
    assert Find(ss, e.index, AsWritten) == first + rest by {
      LookupAsWrittenSpec(ss, e.index);
    }
    LabelAppend(first, rest, e, words);
    assert Label(first, e, words) == [Dress(e, Flatten(ss), words)];
  }

  lemma LabelAppend(a: seq<WordBox>, b: seq<WordBox>, e: Entry, words: seq<string>)
    requires e.index < |words|
    ensures Label(a + b, e, words) == Label(a, e, words) + Label(b, e, words)
  {
    assert forall k | 0 <= k < |a + b| :: (a + b)[k] == if k < |a| then a[k] else b[k - |a|];
  }

  /** `highlight_word_differences`: clear, then paint in green, red or yellow. */
  function Repaint(ds: seq<Marked>): Marks {
    Paint(map[], ds, YellowPalette)
  }

  /** Nothing painted before survives: each page shows just the new marks. */
  lemma RepaintClears(ds: seq<Marked>, page: nat)
    ensures Get(Repaint(ds), page) == MarksOn(ds, page, YellowPalette)
  {
    PaintSpec(map[], ds, YellowPalette, page);
  }

  /** What pressing "compare" does. */
  datatype Outcome = Warned | Abandoned | Shown(messages: seq<Message>, left: Marks, right: Marks)

  /** `compare_texts` and `highlight_differences_on_pdf`, for the sentences
      and texts of both selections, under a reading of the lookup. */
  function CompareTexts(sl: seq<seq<WordBox>>, tl: string, sr: seq<seq<WordBox>>, tr: string, ops: seq<Opcode>, reading: Reading): (o: Outcome)
    requires tl != [] && tr != [] ==> ValidOpcodes(ops, |Words(tl)|, |Words(tr)|)
    ensures o.Warned? <==> tl == [] || tr == []
  {
    if tl == [] || tr == [] then Warned
    else CompareWords(sl, Words(tl), sr, Words(tr), ops, reading)
  }

  /** The comparison proper, for the compared words `wl` and `wr`. */
  function CompareWords(sl: seq<seq<WordBox>>, wl: seq<string>, sr: seq<seq<WordBox>>, wr: seq<string>, ops: seq<Opcode>, reading: Reading): (o: Outcome)
    requires ValidOpcodes(ops, |wl|, |wr|)
    ensures !o.Warned?
  {
    match Expand(ops, wl, wr)
    case None => Abandoned
    case Some(x) =>
      ExpandSpec(ops, wl, wr);
      LeftEntriesBounded(ops, |wl|, |wr|);
      RightEntriesBounded(ops, |wl|, |wr|);
      Shown(x.messages, Repaint(Locations(sl, x.left, wl, reading)), Repaint(Locations(sr, x.right, wr, reading)))
  }

  /** The comparison is abandoned exactly when some `replace` overruns the
      right words; otherwise it repaints both sides from all the marked
      entries. */
  lemma CompareWordsSpec(sl: seq<seq<WordBox>>, wl: seq<string>, sr: seq<seq<WordBox>>, wr: seq<string>, ops: seq<Opcode>, reading: Reading)
    requires ValidOpcodes(ops, |wl|, |wr|)
    ensures var o := CompareWords(sl, wl, sr, wr, ops, reading);
      && (o.Abandoned? <==> exists k | 0 <= k < |ops| :: Overruns(ops[k], |wr|))
      && (o.Shown? ==>
           && (forall k | 0 <= k < |LeftEntries(ops)| :: LeftEntries(ops)[k].index < |wl|)
           && (forall k | 0 <= k < |RightEntries(ops)| :: RightEntries(ops)[k].index < |wr|)
           && o.left == Repaint(Locations(sl, LeftEntries(ops), wl, reading))
           && o.right == Repaint(Locations(sr, RightEntries(ops), wr, reading)))
  {
    ExpandSpec(ops, wl, wr);
    LeftEntriesBounded(ops, |wl|, |wr|);
    RightEntriesBounded(ops, |wl|, |wr|);
  }

  /** A comparison of two selections taken from spans. */
  function CompareSpans(spansL: seq<Span>, pl: nat, spansR: seq<Span>, pr: nat, ops: seq<Opcode>, reading: Reading): Outcome
    requires ValidOpcodes(ops, |SelectedWords(spansL, pl)|, |SelectedWords(spansR, pr)|)
  {
    var left := ExtractSentences(spansL, pl);
    var right := ExtractSentences(spansR, pr);
    CompareTexts(left.0, left.1, right.0, right.1, ops, reading)
  }

  /** One side of a shown comparison, as intended: when the sentences hold
      the selected words and every index names one of them, each page shows
      just the highlights of the marked words, each at its own rectangle. */
  lemma ShownSideIntended(ss: seq<seq<WordBox>>, ws: seq<WordBox>, es: seq<Entry>, page: nat)
    requires Flatten(ss) == ws
    requires forall k | 0 <= k < |es| :: es[k].index < |ws|
    ensures Get(Repaint(Locations(ss, es, Texts(ws), Intended)), page) ==
      MarksOn(Locate(Within(es, |ws|), ws, Texts(ws)), page, YellowPalette)
  {
    WithinAll(es, |ws|);
    LocationsExact(ss, es, Texts(ws));
    RepaintClears(Locations(ss, es, Texts(ws), Intended), page);
  }

  /** One side of a shown comparison, as written: each page shows just the
      echoes of the marked words. */
  lemma ShownSideAsWritten(ss: seq<seq<WordBox>>, ws: seq<WordBox>, es: seq<Entry>, page: nat)
    requires Flatten(ss) == ws
    requires forall k | 0 <= k < |es| :: es[k].index < |ws|
    ensures Get(Repaint(Locations(ss, es, Texts(ws), AsWritten)), page) ==
      MarksOn(Spread(ss, Within(es, |ws|), Texts(ws)), page, YellowPalette)
  {
    WithinAll(es, |ws|);
    LocationsSpread(ss, es, Texts(ws));
    RepaintClears(Locations(ss, es, Texts(ws), AsWritten), page);
  }

  /** Both selections are non-empty, so the comparison is not a warning and
      compares the selected words themselves. */
  lemma SpansCompareWords(spansL: seq<Span>, pl: nat, spansR: seq<Span>, pr: nat, ops: seq<Opcode>, reading: Reading)
    requires SelectedWords(spansL, pl) != [] && SelectedWords(spansR, pr) != []
    requires ValidOpcodes(ops, |SelectedWords(spansL, pl)|, |SelectedWords(spansR, pr)|)
    ensures CompareSpans(spansL, pl, spansR, pr, ops, reading) ==
      CompareWords(ExtractSentences(spansL, pl).0, Texts(SelectedWords(spansL, pl)),
                   ExtractSentences(spansR, pr).0, Texts(SelectedWords(spansR, pr)), ops, reading)
  {
    var left := ExtractSentences(spansL, pl);
    var right := ExtractSentences(spansR, pr);
    var wsl := SelectedWords(spansL, pl);
    var wsr := SelectedWords(spansR, pr);
    assert left.1 != [] && right.1 != [] by {
      SelectedWordsAreWords(spansL, pl);
      SelectedWordsAreWords(spansR, pr);
      JoinClean(Texts(wsl));
      JoinClean(Texts(wsr));
    }
  }

  /** A comparison of two non-empty selections, as the program runs it, is
      abandoned exactly when some `replace` overruns; otherwise each page
      shows just the highlights of the covered words, each followed by the
      first word of every later sentence of its side. */
  lemma CompareSelections(spansL: seq<Span>, pl: nat, spansR: seq<Span>, pr: nat, ops: seq<Opcode>, page: nat)
    requires SelectedWords(spansL, pl) != [] && SelectedWords(spansR, pr) != []
    requires ValidOpcodes(ops, |SelectedWords(spansL, pl)|, |SelectedWords(spansR, pr)|)
    ensures var o := CompareSpans(spansL, pl, spansR, pr, ops, AsWritten);
      var wsl := SelectedWords(spansL, pl);
      var wsr := SelectedWords(spansR, pr);
      var ssl := ExtractSentences(spansL, pl).0;
      var ssr := ExtractSentences(spansR, pr).0;
      && (o.Abandoned? <==> exists k | 0 <= k < |ops| :: Overruns(ops[k], |wsr|))
      && (o.Shown? ==>
           && Get(o.left, page) == MarksOn(Spread(ssl, Within(LeftEntries(ops), |wsl|), Texts(wsl)), page, YellowPalette)
           && Get(o.right, page) == MarksOn(Spread(ssr, Within(RightEntries(ops), |wsr|), Texts(wsr)), page, YellowPalette))
  {
    var wsl := SelectedWords(spansL, pl);
    var wsr := SelectedWords(spansR, pr);
    var ssl := ExtractSentences(spansL, pl).0;
    var ssr := ExtractSentences(spansR, pr).0;
    SpansCompareWords(spansL, pl, spansR, pr, ops, AsWritten);
    CompareWordsSpec(ssl, Texts(wsl), ssr, Texts(wsr), ops, AsWritten);
    var o := CompareSpans(spansL, pl, spansR, pr, ops, AsWritten);
    if o.Shown? {
      ShownSideAsWritten(ssl, wsl, LeftEntries(ops), page);
      ShownSideAsWritten(ssr, wsr, RightEntries(ops), page);
    }
  }

  /** The same comparison as intended is abandoned in the same cases;
      otherwise each page shows just the highlights of the covered words,
      each at its own rectangle. */
  lemma CompareSelectionsIntended(spansL: seq<Span>, pl: nat, spansR: seq<Span>, pr: nat, ops: seq<Opcode>, page: nat)
    requires SelectedWords(spansL, pl) != [] && SelectedWords(spansR, pr) != []
    requires ValidOpcodes(ops, |SelectedWords(spansL, pl)|, |SelectedWords(spansR, pr)|)
    ensures var o := CompareSpans(spansL, pl, spansR, pr, ops, Intended);
      var wsl := SelectedWords(spansL, pl);
      var wsr := SelectedWords(spansR, pr);
      && (o.Abandoned? <==> exists k | 0 <= k < |ops| :: Overruns(ops[k], |wsr|))
      && (o.Shown? ==>
           && Get(o.left, page) == MarksOn(Locate(Within(LeftEntries(ops), |wsl|), wsl, Texts(wsl)), page, YellowPalette)
           && Get(o.right, page) == MarksOn(Locate(Within(RightEntries(ops), |wsr|), wsr, Texts(wsr)), page, YellowPalette))
  {
    var wsl := SelectedWords(spansL, pl);
    var wsr := SelectedWords(spansR, pr);
    var ssl := ExtractSentences(spansL, pl).0;
    var ssr := ExtractSentences(spansR, pr).0;
    SpansCompareWords(spansL, pl, spansR, pr, ops, Intended);
    CompareWordsSpec(ssl, Texts(wsl), ssr, Texts(wsr), ops, Intended);
    var o := CompareSpans(spansL, pl, spansR, pr, ops, Intended);
    if o.Shown? {
      ShownSideIntended(ssl, wsl, LeftEntries(ops), page);
      ShownSideIntended(ssr, wsr, RightEntries(ops), page);
    }
  }
}
