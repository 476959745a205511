/** The block comparator of the insurance-document viewer. It normalises
    block texts, pairs each block of document A with the most similar block
    of document B, classifies every pair word by word and collects per-page
    highlights. `SequenceMatcher.ratio` and `Differ.compare` come from
    `difflib` and are parameters here. */
module TextComparator {
  import opened Basics
  import opened Text
  import Matching

  /** A block needs at least this score to be matched. */
  const SimilarityThreshold: real := 0.6
  /** Added to the score when both blocks carry the same section type. */
  const SectionBonus: real := 0.1

  /** `SequenceMatcher(None, a, b).ratio()`. */
  type RatioFn = (string, string) -> real
  /** `list(Differ().compare(a, b))`. */
  type DiffFn = (seq<string>, seq<string>) -> seq<DiffLine>

  // ---------------------------------------------------------------------
  // normalize_text and tokenize_words
  // ---------------------------------------------------------------------

  /** Collapse whitespace runs, drop characters outside `[\w\s가-힣]`,
      strip, lower-case: in that order. */
  function NormalizeText(text: string): string {
    Lower(Strip(KeepWordSpaceHangul(CollapseSpaces(text))))
  }

  /** What a normalised text looks like: only kept characters, plain spaces,
      no surrounding whitespace, no upper-case letters, and never longer
      than the input. */
  lemma NormalizeTextShape(text: string)
    ensures var r := NormalizeText(text);
      AllKept(r) && OnlyPlainSpaces(r) && Trimmed(r) && NoUpper(r) && |r| <= |text|
  {
    var c := CollapseSpaces(text);
    var k := KeepWordSpaceHangul(c);
    var s := Strip(k);
    assert |k| <= |text| && AllKept(k) && OnlyPlainSpaces(k) by {
      CollapseLength(text);
      KeepPlain(c);
    }
    assert AllKept(s) && OnlyPlainSpaces(s) && Trimmed(s) && |s| <= |text| by {
      StripKeeps(k);
    }
    LowerKeeps(s);
  }

  /** `re.sub(r'\s+', ' ', s)` never lengthens a string. */
  lemma {:induction false} CollapseLength(s: string)
    ensures |CollapseSpaces(s)| <= |s|
    decreases |s|
  {
    if s != [] {
      if IsSpace(s[0]) {
        CollapseLength(StripLeft(s));
        assert |StripLeft(s)| < |s| by {
          assert StripLeft(s) == StripLeft(s[1..]);
        }
      } else {
        CollapseLength(s[1..]);
      }
    }
  }

  lemma KeepPlain(c: string)
    requires OnlyPlainSpaces(c)
    ensures OnlyPlainSpaces(KeepWordSpaceHangul(c)) && |KeepWordSpaceHangul(c)| <= |c|
  {
    var k := KeepWordSpaceHangul(c);
    forall i | 0 <= i < |k| && IsSpace(k[i]) ensures k[i] == ' ' {
      assert k[i] in c;
    }
  }

  lemma StripKeeps(k: string)
    requires AllKept(k) && OnlyPlainSpaces(k)
    ensures AllKept(Strip(k)) && OnlyPlainSpaces(Strip(k)) && Trimmed(Strip(k))
  {
    var s := Strip(k);
    var a := StripSlice(k);
    assert forall i | 0 <= i < |s| :: s[i] == k[a + i];
  }

  lemma LowerKeeps(s: string)
    requires AllKept(s) && OnlyPlainSpaces(s) && Trimmed(s)
    ensures AllKept(Lower(s)) && OnlyPlainSpaces(Lower(s)) && Trimmed(Lower(s)) && NoUpper(Lower(s))
  {
    var r := Lower(s);
    assert |r| > 0 ==> r[0] == LowerChar(s[0]) && r[|r| - 1] == LowerChar(s[|s| - 1]);
  }

  /** A filter that keeps as many characters as it is given keeps them all. */
  lemma {:induction false} FilterFull(keep: char -> bool, s: string)
    requires |Filter(keep, s)| == |s|
    ensures forall i | 0 <= i < |s| :: keep(s[i])
  {
    if s != [] {
      assert keep(s[0]);
      FilterFull(keep, s[1..]);
      assert forall i | 1 <= i < |s| :: s[i] == s[1..][i - 1];
    }
  }

  /** The fixed points of `normalize_text` are exactly the clean lower-case
      strings over `[\w\s가-힣]`. */
  lemma NormalizeTextFixedPoints(s: string)
    ensures NormalizeText(s) == s <==> (AllKept(s) && NoUpper(s) && Clean(s))
  {
    if AllKept(s) && NoUpper(s) && Clean(s) {
      NormalizeTextFixes(s);
    }
    if NormalizeText(s) == s {
      NormalizeTextShape(s);
      FixedPointClean(s);
    }
  }

  lemma NormalizeTextFixes(s: string)
    requires AllKept(s) && NoUpper(s) && Clean(s)
    ensures NormalizeText(s) == s
  {
    var c := CollapseSpaces(s);
    assert c == s by { CollapseIdentity(s); }
    var k := KeepWordSpaceHangul(c);
    assert k == s;
    assert Strip(k) == s by { StripIdentity(s); }
    LowerIdentity(s);
  }

  /** A fixed point has no double space: if the filter dropped a character
      the result would be shorter than the input. */
  lemma FixedPointClean(s: string)
    requires NormalizeText(s) == s
    ensures NoDoubleSpace(s)
  {
    var c := CollapseSpaces(s);
    var k := KeepWordSpaceHangul(c);
    var t := Strip(k);
    assert |k| == |c| by {
      CollapseLength(s);
      assert |Lower(t)| == |t| <= |k| <= |c| <= |s|;
    }
    assert k == c by {
      FilterFull(IsKept, c);
    }
    assert Clean(t) by {
      StripClean(c);
    }
    LowerPlain(t);
  }

  /** The stages of `normalize_text`, one equation each. */
  lemma NormalizeStages(text: string, c: string, k: string, t: string, r: string)
    requires CollapseSpaces(text) == c && KeepWordSpaceHangul(c) == k && Strip(k) == t && Lower(t) == r
    ensures NormalizeText(text) == r
  {
  }

  /** Dropping a character that sits between two spaces leaves a double
      space behind, so `normalize_text` is not idempotent. */
  lemma NormalizeTextNotIdempotent(s: string)
    requires s == "a - b"
    ensures NormalizeText(s) == "a  b"
    ensures NormalizeText(NormalizeText(s)) != NormalizeText(s)
  {
    DashLeavesDoubleSpace(s);
    var t := "a  b";
    assert !NoDoubleSpace(t) by {
      assert t[1] == ' ' && t[2] == ' ';
    }
    NormalizeTextFixedPoints(t);
  }

  lemma DashLeavesDoubleSpace(s: string)
    requires s == "a - b"
    ensures NormalizeText(s) == "a  b"
  {
    var t := "a  b";
    DashCollapsed(s);
    DashDropped(s);
    DoubleSpaceTidy(t);
    NormalizeStages(s, s, t, t, t);
  }

  lemma DashCollapsed(s: string)
    requires s == "a - b"
    ensures CollapseSpaces(s) == s
  {
    assert OnlyPlainSpaces(s) && NoDoubleSpace(s);
    CollapseIdentity(s);
  }

  lemma DashDropped(s: string)
    requires s == "a - b"
    ensures KeepWordSpaceHangul(s) == "a  b"
  {
    var u := "a ";
    var v := " b";
    assert s == u + ['-'] + v;
    KeepSplice(u, '-', v);
    assert u + v == "a  b";
  }

  lemma DoubleSpaceTidy(t: string)
    requires t == "a  b"
    ensures Strip(t) == t && Lower(t) == t
  {
    assert Trimmed(t) && NoUpper(t);
    StripIdentity(t);
    LowerIdentity(t);
  }

  /** Filtering removes a dropped character from between kept text. */
  lemma {:induction false} KeepSplice(u: string, d: char, v: string)
    requires AllKept(u) && AllKept(v) && !IsKept(d)
    ensures KeepWordSpaceHangul(u + [d] + v) == u + v
    decreases |u|
  {
    if u == [] {
      assert u + [d] + v == [d] + v;
      KeepCons(d, v);
      assert KeepWordSpaceHangul(v) == v;
    } else {
      var w := u + [d] + v;
      assert w == [u[0]] + (u[1..] + [d] + v);
      KeepSplice(u[1..], d, v);
      KeepCons(u[0], u[1..] + [d] + v);
      assert u + v == [u[0]] + (u[1..] + v);
    }
  }

  /** The reference tokenisation: `re.sub(r'\s+', ' ', text).strip().split()`. */
  function Tokens(text: string): seq<string> {
    Split(Strip(CollapseSpaces(text)))
  }

  /** Splitting resumes after a whitespace character, emitting the pending
      word if there is one. */
  lemma TokenSpaceStep(current: string, t: string, i: nat)
    requires i < |t| && IsSpace(t[i]) && NoSpace(current)
    ensures Split(current + t[i..]) == Pending(current) + Split(t[i + 1..])
  {
    var u := t[i + 1..];
    assert t[i..] == [t[i]] + u;
    PendingSpace(current, t[i], u);
  }

  lemma PendingSpace(current: string, c: char, u: string)
    requires IsSpace(c) && NoSpace(current)
    ensures Split(current + ([c] + u)) == Pending(current) + Split(u)
  {
    if current == [] {
      assert current + ([c] + u) == [c] + u;
      SplitSpaceCons(c, u);
    } else {
      assert current + ([c] + u) == current + [c] + u;
      SplitWordThenSpace(current, c, u);
    }
  }

  /** The word being accumulated, as a list of at most one word. */
  function Pending(current: string): seq<string> {
    if current == [] then [] else [current]
  }

  /** The words the character loop still emits from position `i` on,
      given the word accumulated so far. */
  function TokenizeFrom(t: string, i: nat, current: string): seq<string>
    requires i <= |t|
    decreases |t| - i
  {
    if i == |t| then Pending(current)
    else if IsSpace(t[i]) then Pending(current) + TokenizeFrom(t, i + 1, "")
    else TokenizeFrom(t, i + 1, current + [t[i]])
  }

  /** The character loop splits exactly as `split()` does. */
  lemma {:induction false} TokenizeFromSplit(t: string, i: nat, current: string)
    requires i <= |t| && NoSpace(current)
    ensures TokenizeFrom(t, i, current) == Split(current + t[i..])
    decreases |t| - i
  {
    if i == |t| {
      assert current + t[i..] == current;
      if current != [] { SplitSingleWord(current); }
    } else if IsSpace(t[i]) {
      TokenizeFromSplit(t, i + 1, "");
      SpaceCase(t, i, current);
    } else {
      TokenizeFromSplit(t, i + 1, current + [t[i]]);
      WordCase(t, i, current);
    }
  }

  /** The step of `TokenizeFromSplit` at a whitespace character. */
  lemma SpaceCase(t: string, i: nat, current: string)
    requires i < |t| && IsSpace(t[i]) && NoSpace(current)
    requires TokenizeFrom(t, i + 1, "") == Split("" + t[i + 1..])
    ensures TokenizeFrom(t, i, current) == Split(current + t[i..])
  {
    assert "" + t[i + 1..] == t[i + 1..];
    TokenSpaceStep(current, t, i);
  }

  /** The step of `TokenizeFromSplit` at a word character. */
  lemma WordCase(t: string, i: nat, current: string)
    requires i < |t| && !IsSpace(t[i])
    requires TokenizeFrom(t, i + 1, current + [t[i]]) == Split(current + [t[i]] + t[i + 1..])
    ensures TokenizeFrom(t, i, current) == Split(current + t[i..])
  {
    var u := t[i + 1..];
    assert t[i..] == [t[i]] + u;
    assert current + [t[i]] + u == current + ([t[i]] + u);
  }

  /** The loop of `tokenize_words` over an already collapsed and stripped text. */
  method ScanWords(t: string) returns (words: seq<string>)
    ensures words == Split(t)
  {
    words := [];
    var current: string := "";
    var i := 0;
    while i < |t|
      invariant 0 <= i <= |t|
      invariant NoSpace(current)
      invariant words + TokenizeFrom(t, i, current) == TokenizeFrom(t, 0, "")
    {
      var c := t[i];
      if IsSpace(c) {
        if current != [] {
          words := words + [current];
          current := "";
        }
      } else {
        current := current + [c];
      }
      i := i + 1;
    }
    if current != [] {
      words := words + [current];
    }
    TokenizeFromSplit(t, 0, "");
    assert "" + t[0..] == t;
  }

  /** `tokenize_words`: collapse whitespace, strip, then run the character
      loop. */
  method TokenizeWords(text: string) returns (words: seq<string>)
    ensures words == Tokens(text)
  {
    words := ScanWords(Strip(CollapseSpaces(text)));
  }

  /** The tokens are non-empty and whitespace-free, and joining them with
      single spaces gives back the collapsed, stripped text. */
  lemma TokensRoundTrip(text: string)
    ensures AllWords(Tokens(text))
    ensures Join(" ", Tokens(text)) == Strip(CollapseSpaces(text))
  {
    var t := Strip(CollapseSpaces(text));
    assert AllWords(Split(t)) by {
      SplitWords(t);
    }
    assert Join(" ", Split(t)) == t by {
      CollapseStripClean(text);
      JoinSplit(t);
    }
  }

  // ---------------------------------------------------------------------
  // find_best_match
  // ---------------------------------------------------------------------

  /** A text block: its text, page, rectangle and optional section type. */
  datatype Block = Block(text: string, page: nat, box: BBox, section: Option<string>)

  /** The score of candidate `b` for target `a`: the ratio of the normalised
      texts plus the section bonus; nothing when `b` normalises to empty
      (such candidates are skipped). */
  function Score(a: Block, b: Block, ratio: RatioFn): Option<real> {
    var sn := NormalizeText(b.text);
    if sn == [] then None
    else Some(ratio(NormalizeText(a.text), sn) + (if a.section == b.section then SectionBonus else 0.0))
  }

  function Scores(a: Block, bs: seq<Block>, ratio: RatioFn): (r: seq<Option<real>>)
    ensures |r| == |bs|
    ensures forall k | 0 <= k < |bs| :: r[k] == Score(a, bs[k], ratio)
  {
    seq(|bs|, k requires 0 <= k < |bs| => Score(a, bs[k], ratio))
  }

  /** `find_best_match`: the first candidate with the greatest score, if
      that score reaches the threshold and the target is not empty. */
  function FindBestMatch(target: Block, sources: seq<Block>, ratio: RatioFn): (r: Option<(nat, real)>)
    ensures r.Some? ==> r.value.0 < |sources|
  {
    if NormalizeText(target.text) == [] then None
    else
      var best := Matching.FirstBest(Scores(target, sources, ratio));
      if best.Some? && best.value.1 >= SimilarityThreshold then best else None
  }

  /** The match is the first candidate of maximal score, and there is none
      exactly when the target is empty or every score is below 0.6. */
  lemma FindBestMatchSpec(target: Block, sources: seq<Block>, ratio: RatioFn)
    ensures var r := FindBestMatch(target, sources, ratio);
      && (r.Some? ==>
            && NormalizeText(target.text) != []
            && Score(target, sources[r.value.0], ratio) == Some(r.value.1)
            && r.value.1 >= SimilarityThreshold
            && (forall k | 0 <= k < |sources| && Score(target, sources[k], ratio).Some? ::
                  Score(target, sources[k], ratio).value <= r.value.1)
            && (forall k | 0 <= k < r.value.0 && Score(target, sources[k], ratio).Some? ::
                  Score(target, sources[k], ratio).value < r.value.1))
      && (r.None? <==>
            || NormalizeText(target.text) == []
            || forall k | 0 <= k < |sources| && Score(target, sources[k], ratio).Some? ::
                 Score(target, sources[k], ratio).value < SimilarityThreshold)
  {
    var sc := Scores(target, sources, ratio);
    var best := Matching.FirstBest(sc);
    if best.Some? && best.value.1 < SimilarityThreshold {
      assert sc[best.value.0].Some?;
    }
  }

  // ---------------------------------------------------------------------
  // compare_word_level and _format_diff_detail
  // ---------------------------------------------------------------------

  /** The kind of a `Differ.compare` line: `'+ '`, `'- '`, `'  '` or `'? '`. */
  datatype DiffTag = Plus | Minus | Common | Hint
  /** One `Differ.compare` line: its two-character tag and the rest. */
  datatype DiffLine = DiffLine(tag: DiffTag, word: string)

  /** The result of a word-level comparison. */
  datatype WordDiff = Same | Modified(added: seq<string>, deleted: seq<string>, textA: string, textB: string)

  /** `[line[2:] for line in lines if line.startswith(tag)]`. */
  function Tagged(lines: seq<DiffLine>, tag: DiffTag): (r: seq<string>)
    ensures |r| <= |lines|
  {
    if lines == [] then []
    else (if lines[0].tag == tag then [lines[0].word] else []) + Tagged(lines[1..], tag)
  }

  /** The words `Tagged` collects are exactly those of the lines with that tag. */
  lemma {:induction false} TaggedMembers(lines: seq<DiffLine>, tag: DiffTag, w: string)
    ensures w in Tagged(lines, tag) <==> DiffLine(tag, w) in lines
  {
    if lines != [] {
      TaggedMembers(lines[1..], tag, w);
      assert lines == [lines[0]] + lines[1..];
    }
  }

  /** `compare_word_level`: tokenises both texts and compares the tokens. */
  function CompareWordLevel(textA: string, textB: string,
                            differ: DiffFn): WordDiff
  {
    CompareTokens(Tokens(textA), Tokens(textB), textA, textB, differ)
  }

  /** `Same` when the token lists agree or when the differ reports no added
      and no deleted word; otherwise the reported words and both texts. */
  function CompareTokens(wa: seq<string>, wb: seq<string>, textA: string, textB: string,
                         differ: DiffFn): WordDiff
  {
    if wa == wb then Same
    else
      var lines := differ(wa, wb);
      var added := Tagged(lines, Plus);
      var deleted := Tagged(lines, Minus);
      if added != [] || deleted != [] then Modified(added, deleted, textA, textB) else Same
  }

  predicate HasChangeLine(lines: seq<DiffLine>) {
    exists k | 0 <= k < |lines| :: lines[k].tag == Plus || lines[k].tag == Minus
  }

  /** What `Differ` guarantees: two different word lists produce at least
      one `'+ '` or `'- '` line. */
  ghost predicate DifferReportsChange(differ: DiffFn) {
    forall a, b | a != b :: HasChangeLine(differ(a, b))
  }

  /** Every `'+ '` word comes from the new list and every `'- '` word from
      the old one. */
  predicate LinesFrom(lines: seq<DiffLine>, a: seq<string>, b: seq<string>) {
    forall k | 0 <= k < |lines| ::
      (lines[k].tag == Plus ==> lines[k].word in b) && (lines[k].tag == Minus ==> lines[k].word in a)
  }

  /** No tagged words exactly when no line carries a change tag. */
  lemma TaggedEmpty(lines: seq<DiffLine>)
    ensures (Tagged(lines, Plus) != [] || Tagged(lines, Minus) != []) <==> HasChangeLine(lines)
  {
    if HasChangeLine(lines) {
      var k :| 0 <= k < |lines| && (lines[k].tag == Plus || lines[k].tag == Minus);
      assert lines[k] in lines;
      TaggedMembers(lines, lines[k].tag, lines[k].word);
    } else {
      if Tagged(lines, Plus) != [] {
        TaggedMembers(lines, Plus, Tagged(lines, Plus)[0]);
      }
      if Tagged(lines, Minus) != [] {
        TaggedMembers(lines, Minus, Tagged(lines, Minus)[0]);
      }
    }
  }

  lemma CompareTokensSpec(wa: seq<string>, wb: seq<string>, textA: string, textB: string,
                          differ: DiffFn)
    ensures var r := CompareTokens(wa, wb, textA, textB, differ);
      var lines := differ(wa, wb);
      && (r.Modified? <==> wa != wb && HasChangeLine(lines))
      && (r.Modified? ==>
            && r.textA == textA && r.textB == textB
            && (forall w :: w in r.added <==> DiffLine(Plus, w) in lines)
            && (forall w :: w in r.deleted <==> DiffLine(Minus, w) in lines))
  {
    var lines := differ(wa, wb);
    TaggedEmpty(lines);
    forall w ensures w in Tagged(lines, Plus) <==> DiffLine(Plus, w) in lines {
      TaggedMembers(lines, Plus, w);
    }
    forall w ensures w in Tagged(lines, Minus) <==> DiffLine(Minus, w) in lines {
      TaggedMembers(lines, Minus, w);
    }
  }

  /** The result is `Modified` exactly when the tokens differ and the differ
      reports a change; a `Modified` result carries both texts verbatim and
      exactly the words of the `'+ '` and `'- '` lines. */
  lemma CompareWordLevelSpec(textA: string, textB: string,
                             differ: DiffFn)
    ensures var r := CompareWordLevel(textA, textB, differ);
      var lines := differ(Tokens(textA), Tokens(textB));
      && (r.Modified? <==> Tokens(textA) != Tokens(textB) && HasChangeLine(lines))
      && (r.Modified? ==>
            && r.textA == textA && r.textB == textB
            && (forall w :: w in r.added <==> DiffLine(Plus, w) in lines)
            && (forall w :: w in r.deleted <==> DiffLine(Minus, w) in lines))
  {
    CompareTokensSpec(Tokens(textA), Tokens(textB), textA, textB, differ);
  }

  /** With a differ that reports every change, two texts compare as `Same`
      exactly when they have the same tokens. */
  lemma SameIffSameTokens(textA: string, textB: string,
                          differ: DiffFn)
    requires DifferReportsChange(differ)
    ensures CompareWordLevel(textA, textB, differ).Same? <==> Tokens(textA) == Tokens(textB)
  {
    var wa := Tokens(textA);
    var wb := Tokens(textB);
    CompareTokensSpec(wa, wb, textA, textB, differ);
  }

  /** Which side's detail is being formatted. */
  datatype Side = SideA | SideB

  const DeletedWordsPrefix: string := "[변경/삭제] "
  const AddedWordsPrefix: string := "[변경/추가] "
  const ChangedOnly: string := "[변경됨]"

  /** The words a side's detail lists: the deleted words for A, the added
      words for B (both empty for `Same`). */
  function DetailWords(wd: WordDiff, side: Side): seq<string> {
    if wd.Same? then [] else if side == SideA then wd.deleted else wd.added
  }

  function DetailPrefix(side: Side): string {
    if side == SideA then DeletedWordsPrefix else AddedWordsPrefix
  }

  /** `_format_diff_detail`. */
  function FormatDiffDetail(wd: WordDiff, side: Side): string {
    var words := DetailWords(wd, side);
    if words == [] then ChangedOnly else DetailPrefix(side) + Join(" ", words)
  }

  /** The detail is the bare marker exactly when the side has no words, and
      otherwise the prefix followed by text that splits back into the words. */
  lemma FormatDiffDetailRoundTrip(wd: WordDiff, side: Side)
    requires AllWords(DetailWords(wd, side))
    ensures var r := FormatDiffDetail(wd, side);
      && (r == ChangedOnly <==> DetailWords(wd, side) == [])
      && (DetailWords(wd, side) != [] ==>
            && |DetailPrefix(side)| <= |r| && r[..|DetailPrefix(side)|] == DetailPrefix(side)
            && Split(r[|DetailPrefix(side)|..]) == DetailWords(wd, side))
  {
    var words := DetailWords(wd, side);
    if words != [] {
      var r := FormatDiffDetail(wd, side);
      var p := DetailPrefix(side);
      assert r[..|p|] == p && r[|p|..] == Join(" ", words);
      assert r[3] != ChangedOnly[3];
      SplitJoin(words);
    }
  }

  /** When the differ only reports words of its inputs, each side's detail
      names whole tokens of its own block and splits back into them. */
  lemma DetailListsTokens(textA: string, textB: string,
                          differ: DiffFn, side: Side)
    requires LinesFrom(differ(Tokens(textA), Tokens(textB)), Tokens(textA), Tokens(textB))
    ensures var wd := CompareWordLevel(textA, textB, differ);
      var ws := DetailWords(wd, side);
      var r := FormatDiffDetail(wd, side);
      && (forall w | w in ws :: w in (if side == SideA then Tokens(textA) else Tokens(textB)))
      && (ws != [] ==> Split(r[|DetailPrefix(side)|..]) == ws)
  {
    var wa := Tokens(textA);
    var wb := Tokens(textB);
    assert AllWords(wa) && AllWords(wb) by {
      SplitWords(Strip(CollapseSpaces(textA)));
      SplitWords(Strip(CollapseSpaces(textB)));
    }
    DetailFromTokens(wa, wb, textA, textB, differ, side);
  }

  lemma DetailFromTokens(wa: seq<string>, wb: seq<string>, textA: string, textB: string,
                         differ: DiffFn, side: Side)
    requires LinesFrom(differ(wa, wb), wa, wb) && AllWords(wa) && AllWords(wb)
    ensures var wd := CompareTokens(wa, wb, textA, textB, differ);
      var ws := DetailWords(wd, side);
      var r := FormatDiffDetail(wd, side);
      && (forall w | w in ws :: w in (if side == SideA then wa else wb))
      && (ws != [] ==> Split(r[|DetailPrefix(side)|..]) == ws)
  {
    var wd := CompareTokens(wa, wb, textA, textB, differ);
    var ws := DetailWords(wd, side);
    var tokens := if side == SideA then wa else wb;
    assert forall w | w in ws :: w in tokens by {
      if wd.Modified? {
        CompareTokensSpec(wa, wb, textA, textB, differ);
        var lines := differ(wa, wb);
        forall w | w in ws ensures w in tokens {
          var tag := if side == SideA then Minus else Plus;
          assert DiffLine(tag, w) in lines;
          var k :| 0 <= k < |lines| && lines[k] == DiffLine(tag, w);
        }
      }
    }
    assert AllWords(ws) by {
      forall k | 0 <= k < |ws| ensures IsWord(ws[k]) {
        assert ws[k] in ws;
        var m :| 0 <= m < |tokens| && tokens[m] == ws[k];
      }
    }
    FormatDiffDetailRoundTrip(wd, side);
  }
}
