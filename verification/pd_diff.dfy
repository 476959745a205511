/** The section comparator of the PDdiff viewer: titles are normalised to
    letters and digits only, every block of A takes the first block of B
    with the highest similarity of at least 0.8, matched pairs are
    classified as the same, a filled-in placeholder or a real modification,
    and the highlights are red for blocks of A without a match, yellow on
    both sides for modifications and green for blocks of B nobody matched. */
module PdDiff {
  import opened Basics
  import opened Text
  import Matching

  // ---------------------------------------------------------------------
  // normalize_text
  // ---------------------------------------------------------------------

  /** The letters of `[IVX]` under `re.IGNORECASE`. */
  predicate IsRomanLetter(c: char) {
    c == 'I' || c == 'V' || c == 'X' || c == 'i' || c == 'v' || c == 'x'
  }

  predicate AllRoman(w: string) { forall i | 0 <= i < |w| :: IsRomanLetter(w[i]) }

  /** The length of the run of `\w` characters that `s` starts with. */
  function WordRunLength(s: string): (n: nat)
    ensures n <= |s|
    ensures forall i | 0 <= i < n :: IsWordChar(s[i])
    ensures n < |s| ==> !IsWordChar(s[n])
    ensures |s| > 0 && IsWordChar(s[0]) ==> n >= 1
  {
    if s == [] || !IsWordChar(s[0]) then 0 else 1 + WordRunLength(s[1..])
  }

  /** `re.sub(r'\b[IVX]+\b', '', s, flags=re.IGNORECASE)`: a match must
      start and end at a word boundary, so it is exactly a maximal run of
      `\w` characters that consists of roman-numeral letters only; such a
      run is deleted and every other character is copied. */
  function DropRomanWords(s: string): string
    decreases |s|
  {
    if s == [] then [] else Head(s) + DropRomanWords(s[HeadLength(s)..])
  }

  /** The first unit of `s`: its leading run of word characters, or its
      first character when that is not a word character. */
  function HeadLength(s: string): (n: nat)
    requires s != []
    ensures 1 <= n <= |s|
  {
    if IsWordChar(s[0]) then WordRunLength(s) else 1
  }

  /** What becomes of the first unit. */
  function Head(s: string): string
    requires s != []
  {
    if IsWordChar(s[0]) then Piece(s[..HeadLength(s)]) else [s[0]]
  }

  /** What becomes of one maximal run of word characters. */
  function Piece(w: string): string {
    if AllRoman(w) then [] else w
  }

  /** `normalize_text` of PDdiff.py: drop everything outside
      `[\w\s가-힣]`, delete standalone roman numerals, delete all
      whitespace, lower-case. */
  function Normalize(text: string): string {
    Lower(RemoveSpaces(DropRomanWords(KeepWordSpaceHangul(text))))
  }

  /** A run that ends before a non-word character is the run of any
      continuation. */
  lemma {:induction false} RunPrefix(x: string, y: string)
    requires WordRunLength(x) < |x|
    ensures WordRunLength(x + y) == WordRunLength(x)
    decreases |x|
  {
    if IsWordChar(x[0]) {
      assert (x + y)[1..] == x[1..] + y;
      RunPrefix(x[1..], y);
    }
  }

  /** A run of word characters followed by a non-word character, or by
      nothing, is the whole run. */
  lemma {:induction false} RunWhole(w: string, y: string)
    requires AllWordChars(w) && (y == [] || !IsWordChar(y[0]))
    ensures WordRunLength(w + y) == |w|
    decreases |w|
  {
    if w == [] {
      assert w + y == y;
    } else {
      assert (w + y)[1..] == w[1..] + y;
      RunWhole(w[1..], y);
    }
  }

  /** Where a word character does not meet another word character, the
      text is processed independently on either side. */
  predicate Boundary(x: string, y: string) {
    x == [] || y == [] || !IsWordChar(x[|x| - 1]) || !IsWordChar(y[0])
  }

  lemma {:induction false} DropBoundary(x: string, y: string)
    requires Boundary(x, y)
    ensures DropRomanWords(x + y) == DropRomanWords(x) + DropRomanWords(y)
    decreases |x|
  {
    if x == [] {
      assert x + y == y;
    } else {
      var rest := x[HeadLength(x)..];
      HeadStable(x, y);
      assert Boundary(rest, y) by {
        if rest != [] { assert rest[|rest| - 1] == x[|x| - 1]; }
      }
      DropBoundary(rest, y);
      AppendAssoc(Head(x), DropRomanWords(rest), DropRomanWords(y));
    }
  }

  /** The first unit of a text does not depend on what follows the text
      across a boundary. */
  lemma HeadStable(x: string, y: string)
    requires x != [] && Boundary(x, y)
    ensures HeadLength(x + y) == HeadLength(x) && Head(x + y) == Head(x)
    ensures (x + y)[HeadLength(x)..] == x[HeadLength(x)..] + y
  {
    var n := HeadLength(x);
    if IsWordChar(x[0]) {
      if n < |x| {
        RunPrefix(x, y);
      } else {
        assert x[..n] == x;
        RunWhole(x, y);
      }
      assert (x + y)[..n] == x[..n];
    }
  }

  /** A whole run of word characters is deleted when it is a roman numeral
      and copied otherwise. */
  lemma DropRun(w: string, y: string)
    requires |w| > 0 && AllWordChars(w) && (y == [] || !IsWordChar(y[0]))
    ensures DropRomanWords(w + y) == Piece(w) + DropRomanWords(y)
  {
    RunWhole(w, y);
    var s := w + y;
    assert s[..|w|] == w && s[|w|..] == y;
  }

  lemma AppendAssoc<T>(a: seq<T>, b: seq<T>, c: seq<T>)
    ensures a + (b + c) == (a + b) + c
  {
  }

  /** Normalisation word by word: a run `w` of word characters between two
      pieces of whitespace contributes its lower-case form, or nothing when
      it is a standalone roman numeral. */
  lemma WordSplice(u: string, w: string, v: string)
    requires |w| > 0 && AllWordChars(w)
    requires u == [] || IsSpace(u[|u| - 1])
    requires v == [] || IsSpace(v[0])
    ensures Normalize(u + w + v) == Normalize(u) + (if AllRoman(w) then [] else Lower(w)) + Normalize(v)
  {
    var ku, kv := KeepWordSpaceHangul(u), KeepWordSpaceHangul(v);
    var du, dv := DropRomanWords(ku), DropRomanWords(kv);
    var nu, nv := Normalize(u), Normalize(v);
    var p := Piece(w);
    var k := KeepWordSpaceHangul(u + w + v);
    assert k == ku + (w + kv) by { KeepSplice(u, w, v); }
    var d := DropRomanWords(k);
    assert NoSpace(p) by { WordsNoSpace(w); }
    assert d == du + (p + dv) by {
      KeepEnds(u);
      KeepStarts(v);
      DropSplice(ku, w, kv);
    }
    assert Lower(RemoveSpaces(d)) == nu + Lower(p) + nv by {
      FinishSplice(du, p, dv);
    }
    assert Lower(p) == (if AllRoman(w) then [] else Lower(w));
  }

  lemma KeepSplice(u: string, w: string, v: string)
    requires AllWordChars(w)
    ensures KeepWordSpaceHangul(u + w + v)
         == KeepWordSpaceHangul(u) + (w + KeepWordSpaceHangul(v))
  {
    assert KeepWordSpaceHangul(w) == w;
    FilterAppend(IsKept, u + w, v);
    FilterAppend(IsKept, u, w);
    AppendAssoc(KeepWordSpaceHangul(u), w, KeepWordSpaceHangul(v));
  }

  /** Filtering keeps a final whitespace character. */
  lemma KeepEnds(u: string)
    requires u == [] || IsSpace(u[|u| - 1])
    ensures KeepWordSpaceHangul(u) == [] || !IsWordChar(KeepWordSpaceHangul(u)[|KeepWordSpaceHangul(u)| - 1])
  {
    if u != [] {
      var c := u[|u| - 1];
      var init := u[..|u| - 1];
      assert u == init + [c];
      FilterAppend(IsKept, init, [c]);
      KeepSpace(c);
      SpaceNotWord(c);
    }
  }

  /** Filtering keeps a leading whitespace character. */
  lemma KeepStarts(v: string)
    requires v == [] || IsSpace(v[0])
    ensures KeepWordSpaceHangul(v) == [] || !IsWordChar(KeepWordSpaceHangul(v)[0])
  {
    if v != [] {
      var c := v[0];
      var tail := v[1..];
      assert v == [c] + tail;
      FilterAppend(IsKept, [c], tail);
      KeepSpace(c);
      SpaceNotWord(c);
    }
  }

  lemma KeepSpace(c: char)
    requires IsSpace(c)
    ensures KeepWordSpaceHangul([c]) == [c]
  {
  }

  lemma SpaceNotWord(c: char)
    requires IsSpace(c)
    ensures !IsWordChar(c)
  {
    if IsWordChar(c) {
      WordNotSpace(c);
    }
  }

  lemma DropSplice(ku: string, w: string, kv: string)
    requires |w| > 0 && AllWordChars(w)
    requires ku == [] || !IsWordChar(ku[|ku| - 1])
    requires kv == [] || !IsWordChar(kv[0])
    ensures DropRomanWords(ku + (w + kv)) == DropRomanWords(ku) + (Piece(w) + DropRomanWords(kv))
  {
    DropBoundary(ku, w + kv);
    DropRun(w, kv);
  }

  lemma FinishSplice(du: string, p: string, dv: string)
    requires NoSpace(p)
    ensures Lower(RemoveSpaces(du + (p + dv)))
         == Lower(RemoveSpaces(du)) + Lower(p) + Lower(RemoveSpaces(dv))
  {
    var ru, rv := RemoveSpaces(du), RemoveSpaces(dv);
    assert RemoveSpaces(p) == p;
    FilterAppend(x => !IsSpace(x), du, p + dv);
    FilterAppend(x => !IsSpace(x), p, dv);
    LowerAppend(ru, p + rv);
    LowerAppend(p, rv);
    AppendAssoc(Lower(ru), Lower(p), Lower(rv));
  }

  /** A standalone roman numeral between two pieces of whitespace leaves
      no trace. */
  lemma RomanNumeralDropped(u: string, w: string, v: string)
    requires |w| > 0 && AllRoman(w)
    requires u == [] || IsSpace(u[|u| - 1])
    requires v == [] || IsSpace(v[0])
    ensures Normalize(u + w + v) == Normalize(u) + Normalize(v)
    ensures Normalize(u + w + v) == Normalize(u + [' '] + v)
  {
    assert AllWordChars(w);
    assert Normalize(u + w + v) == Normalize(u) + Normalize(v) by {
      WordSplice(u, w, v);
      AppendEmpty(Normalize(u), Normalize(v));
    }
    SpaceSplice(u, v);
  }

  lemma AppendEmpty<T>(a: seq<T>, b: seq<T>)
    ensures a + [] + b == a + b
  {
  }

  /** A single space between two texts only separates them. */
  lemma SpaceSplice(u: string, v: string)
    ensures Normalize(u + [' '] + v) == Normalize(u) + Normalize(v)
  {
    var sp := [' '];
    var ku, kv := KeepWordSpaceHangul(u), KeepWordSpaceHangul(v);
    assert KeepWordSpaceHangul(u + sp + v) == ku + (sp + kv) by {
      FilterAppend(IsKept, u + sp, v);
      FilterAppend(IsKept, u, sp);
      assert KeepWordSpaceHangul(sp) == sp;
      AppendAssoc(ku, sp, kv);
    }
    var du, dv := DropRomanWords(ku), DropRomanWords(kv);
    assert DropRomanWords(ku + (sp + kv)) == du + (sp + dv) by {
      SpaceDrop(ku, kv);
    }
    assert Lower(RemoveSpaces(du + (sp + dv))) == Lower(RemoveSpaces(du)) + Lower(RemoveSpaces(dv)) by {
      FilterAppend(x => !IsSpace(x), du, sp + dv);
      FilterAppend(x => !IsSpace(x), sp, dv);
      assert RemoveSpaces(sp) == [];
      assert RemoveSpaces(sp + dv) == RemoveSpaces(dv);
      LowerAppend(RemoveSpaces(du), RemoveSpaces(dv));
    }
  }

  lemma SpaceDrop(ku: string, kv: string)
    ensures DropRomanWords(ku + ([' '] + kv)) == DropRomanWords(ku) + ([' '] + DropRomanWords(kv))
  {
    var s := [' '] + kv;
    assert HeadLength(s) == 1 && Head(s) == [' '] && s[1..] == kv;
    DropBoundary(ku, s);
  }

  /** Some word character of `x`, if any, is not a roman-numeral letter. */
  predicate PlainIfWord(x: string) {
    (exists i | 0 <= i < |x| :: IsWordChar(x[i])) ==>
      exists i | 0 <= i < |x| :: IsWordChar(x[i]) && !IsRomanLetter(x[i])
  }

  lemma PlainAppend(a: string, b: string)
    requires PlainIfWord(a) && PlainIfWord(b)
    ensures PlainIfWord(a + b)
  {
    var s := a + b;
    if exists i | 0 <= i < |s| :: IsWordChar(s[i]) {
      var i :| 0 <= i < |s| && IsWordChar(s[i]);
      if i < |a| {
        assert IsWordChar(a[i]);
        var k :| 0 <= k < |a| && IsWordChar(a[k]) && !IsRomanLetter(a[k]);
        assert s[k] == a[k];
      } else {
        assert IsWordChar(b[i - |a|]);
        var k :| 0 <= k < |b| && IsWordChar(b[k]) && !IsRomanLetter(b[k]);
        assert s[|a| + k] == b[k];
      }
    }
  }

  /** The first unit never becomes a roman numeral alone. */
  lemma HeadPlain(s: string)
    requires s != []
    ensures PlainIfWord(Head(s))
  {
    var h := Head(s);
    if IsWordChar(s[0]) {
      var w := s[..HeadLength(s)];
      if !AllRoman(w) {
        var k :| 0 <= k < |w| && !IsRomanLetter(w[k]);
        assert IsWordChar(h[k]) && !IsRomanLetter(h[k]);
      }
    }
  }

  /** What survives the roman-numeral deletion never consists of
      roman-numeral letters alone. */
  lemma {:induction false} DropLeavesPlain(s: string)
    ensures PlainIfWord(DropRomanWords(s))
    decreases |s|
  {
    if s != [] {
      HeadPlain(s);
      DropLeavesPlain(s[HeadLength(s)..]);
      PlainAppend(Head(s), DropRomanWords(s[HeadLength(s)..]));
    }
  }

  lemma AllKeptAppend(a: string, b: string)
    requires AllKept(a) && AllKept(b)
    ensures AllKept(a + b)
  {
    assert forall i | |a| <= i < |a + b| :: (a + b)[i] == b[i - |a|];
  }

  /** The deletion only removes characters. */
  lemma {:induction false} DropKeeps(s: string)
    requires AllKept(s)
    ensures AllKept(DropRomanWords(s))
    decreases |s|
  {
    if s != [] {
      var n := HeadLength(s);
      assert AllKept(Head(s)) by {
        assert forall i | 0 <= i < n :: s[..n][i] == s[i];
      }
      assert AllKept(s[n..]) by {
        assert forall i | 0 <= i < |s| - n :: s[n..][i] == s[n + i];
      }
      DropKeeps(s[n..]);
      AllKeptAppend(Head(s), DropRomanWords(s[n..]));
    }
  }

  /** The shape of a normalised text: only `\w` characters (so no
      whitespace), no upper-case letters, and never a roman numeral alone. */
  lemma NormalizeShape(text: string)
    ensures AllWordChars(Normalize(text)) && NoUpper(Normalize(text))
    ensures Normalize(text) != [] ==> !AllRoman(Normalize(text))
  {
    var k := KeepWordSpaceHangul(text);
    var d := DropRomanWords(k);
    DropKeeps(k);
    DropLeavesPlain(k);
    NormalizeFinish(d);
  }

  lemma NormalizeFinish(d: string)
    requires AllKept(d) && PlainIfWord(d)
    ensures AllWordChars(Lower(RemoveSpaces(d)))
    ensures Lower(RemoveSpaces(d)) != [] ==> !AllRoman(Lower(RemoveSpaces(d)))
  {
    RemoveSpacesWordChars(d);
    LowerWordChars(RemoveSpaces(d));
    if RemoveSpaces(d) != [] {
      RemoveSpacesPlain(d);
    }
  }

  lemma KeptWordChar(c: char)
    requires IsKept(c) && !IsSpace(c)
    ensures IsWordChar(c)
  {
  }

  lemma LowerWordChars(s: string)
    requires AllWordChars(s)
    ensures AllWordChars(Lower(s))
  {
  }

  lemma RemoveSpacesWordChars(d: string)
    requires AllKept(d)
    ensures AllWordChars(RemoveSpaces(d))
  {
    var rs := RemoveSpaces(d);
    forall i | 0 <= i < |rs| ensures IsWordChar(rs[i]) {
      assert rs[i] in d;
      KeptWordChar(rs[i]);
    }
  }

  lemma RemoveSpacesPlain(d: string)
    requires AllKept(d) && PlainIfWord(d) && RemoveSpaces(d) != []
    ensures !AllRoman(Lower(RemoveSpaces(d)))
  {
    var rs := RemoveSpaces(d);
    assert rs[0] in d;
    var j :| 0 <= j < |d| && d[j] == rs[0];
    KeptWordChar(d[j]);
    var p :| 0 <= p < |d| && IsWordChar(d[p]) && !IsRomanLetter(d[p]);
    WordNotSpace(d[p]);
    FilterMember(x => !IsSpace(x), d, p);
    var q :| 0 <= q < |rs| && rs[q] == d[p];
    assert !IsRomanLetter(Lower(rs)[q]);
  }

  /** Normalising twice is normalising once. */
  lemma NormalizeIdempotent(text: string)
    ensures Normalize(Normalize(text)) == Normalize(text)
  {
    var r := Normalize(text);
    NormalizeShape(text);
    assert KeepWordSpaceHangul(r) == r;
    assert DropRomanWords(r) == r by {
      if r != [] {
        DropRun(r, []);
        assert r + [] == r;
      }
    }
    assert RemoveSpaces(r) == r;
    LowerIdentity(r);
  }

  // ---------------------------------------------------------------------
  // is_placeholder_diff and compare_text_blocks
  // ---------------------------------------------------------------------

  /** The patterns of the list that are plain text. */
  const LiteralPatterns: seq<string> := ["○○○", "xxx", "x.xx%", "××세", "××××", "O / O"]

  /** Two Hangul syllables in a row at `i`: what `[가-힣]{2,4}` finds. */
  predicate HangulPair(a: string, i: nat) {
    i + 1 < |a| && IsHangulSyllable(a[i]) && IsHangulSyllable(a[i + 1])
  }

  /** Four upper-case ASCII letters in a row at `i`: what `[A-Z]{4,6}` finds. */
  predicate UpperRun(a: string, i: nat) {
    i + 3 < |a| && IsAsciiUpper(a[i]) && IsAsciiUpper(a[i + 1]) && IsAsciiUpper(a[i + 2]) && IsAsciiUpper(a[i + 3])
  }

  /** Some pattern of the placeholder list occurs in `a`. Every pattern of
      the list that is not plain text needs a digit (dates, phone numbers,
      ages, amounts, rates, `\d{1,4}`), two adjacent syllables (names and
      the bracketed product labels), or four upper-case letters
      (`[A-Z]{4,6}`, the run of O's); and a single digit or syllable pair is
      itself a match of `\d{1,4}` or `[가-힣]{2,4}`. */
  predicate HasPlaceholder(a: string) {
    || (exists i | 0 <= i < |a| :: IsDigit(a[i]))
    || (exists i | 0 <= i < |a| :: HangulPair(a, i))
    || (exists i | 0 <= i < |a| :: UpperRun(a, i))
    || (exists k | 0 <= k < |LiteralPatterns| :: Contains(a, LiteralPatterns[k]))
  }

  /** `is_placeholder_diff`: A shows a placeholder pattern and the two texts
      differ after stripping. Whether B shows one is never consulted. */
  function IsPlaceholderDiff(textA: string, textB: string): (r: bool)
    ensures r ==> Strip(textA) != Strip(textB)
    ensures r <==> HasPlaceholder(textA) && Strip(textA) != Strip(textB)
  {
    HasPlaceholder(textA) && Strip(textA) != Strip(textB)
  }

  lemma PairIsPlaceholder(a: string, i: nat)
    requires HangulPair(a, i)
    ensures HasPlaceholder(a)
  {
  }

  lemma TrimmedDiffer(a: string, b: string, i: nat)
    requires Trimmed(a) && Trimmed(b) && i < |a| && i < |b| && a[i] != b[i]
    ensures Strip(a) != Strip(b)
  {
    StripIdentity(a);
    StripIdentity(b);
  }

  /** Two adjacent syllables are enough, whatever B says: the age template
      "보험기간: ××세" against "보험기간: 30세" is a placeholder change. */
  lemma AgeTemplateIsPlaceholder()
    ensures IsPlaceholderDiff("보험기간: ××세", "보험기간: 30세")
  {
    var a, b := "보험기간: ××세", "보험기간: 30세";
    PairIsPlaceholder(a, 0);
    TrimmedDiffer(a, b, 6);
  }

  lemma NoPlaceholderIn(a: string)
    requires |a| == 1 && !IsDigit(a[0]) && !IsHangulSyllable(a[0]) && !IsAsciiUpper(a[0])
    ensures !HasPlaceholder(a)
  {
    forall k | 0 <= k < |LiteralPatterns| ensures !Contains(a, LiteralPatterns[k]) {
      assert |LiteralPatterns[k]| >= 3;
    }
  }

  /** A placeholder pattern in B alone does not count. */
  lemma PlaceholderInBIgnored()
    ensures !IsPlaceholderDiff("a", "30세")
  {
    NoPlaceholderIn("a");
  }

  /** The classification of a matched pair. */
  datatype Kind = Same | Placeholder | Modified

  /** `compare_text_blocks`: the same raw text, else a placeholder change,
      else a modification. */
  function CompareTextBlocks(textA: string, textB: string): (k: Kind)
    ensures k == Same <==> textA == textB
    ensures k == Placeholder <==> textA != textB && IsPlaceholderDiff(textA, textB)
    ensures k == Modified <==> textA != textB && !IsPlaceholderDiff(textA, textB)
  {
    if textA == textB then Same
    else if IsPlaceholderDiff(textA, textB) then Placeholder
    else Modified
  }

  /** Texts that differ only in surrounding whitespace are a modification,
      never a placeholder change. */
  lemma WhitespaceOnlyIsModified(textA: string, textB: string)
    requires textA != textB && Strip(textA) == Strip(textB)
    ensures CompareTextBlocks(textA, textB) == Modified
  {
  }

  /** Once the texts differ after stripping, the classification depends on
      A alone. */
  lemma KindDependsOnA(textA: string, b1: string, b2: string)
    requires Strip(textA) != Strip(b1) && Strip(textA) != Strip(b2)
    ensures CompareTextBlocks(textA, b1) == CompareTextBlocks(textA, b2)
  {
  }

  // ---------------------------------------------------------------------
  // find_best_match
  // ---------------------------------------------------------------------

  const MatchThreshold: real := 0.8

  /** `SequenceMatcher(None, s, t).ratio()`, supplied by the caller. */
  type RatioFn = (string, string) -> real

  /** A text block: its page, its rectangle, its stripped text and that
      text normalised. */
  datatype Block = Block(page: nat, box: BBox, text: string, norm: string)

  /** A block as `extract_text_blocks` builds it. */
  predicate WellFormed(b: Block) {
    b.text != [] && Trimmed(b.text) && b.norm == Normalize(b.text)
  }

  /** The block the extractor makes of one `(bbox, text)` entry, if its
      stripped text is not empty. */
  function Extract(page: nat, entry: (BBox, string)): (r: seq<Block>)
    ensures |r| <= 1
    ensures r == [] <==> Strip(entry.1) == []
    ensures forall k | 0 <= k < |r| :: WellFormed(r[k]) && r[k].page == page && r[k].box == entry.0
  {
    var t := Strip(entry.1);
    if t == [] then [] else [Block(page, entry.0, t, Normalize(t))]
  }

  /** The blocks of one page, in the order PyMuPDF lists them. */
  function ExtractPage(page: nat, entries: seq<(BBox, string)>): (r: seq<Block>)
    ensures |r| <= |entries|
    ensures forall k | 0 <= k < |r| :: WellFormed(r[k]) && r[k].page == page
  {
    if entries == [] then [] else Extract(page, entries[0]) + ExtractPage(page, entries[1..])
  }

  /** Every entry with text yields its block, and nothing else is made. */
  lemma {:induction false} ExtractPageMembers(page: nat, entries: seq<(BBox, string)>, b: Block)
    ensures b in ExtractPage(page, entries) <==>
      exists k | 0 <= k < |entries| :: b in Extract(page, entries[k])
  {
    if entries != [] {
      ExtractPageMembers(page, entries[1..], b);
      assert ExtractPage(page, entries) == Extract(page, entries[0]) + ExtractPage(page, entries[1..]);
      if exists k | 0 <= k < |entries| :: b in Extract(page, entries[k]) {
        var k :| 0 <= k < |entries| && b in Extract(page, entries[k]);
        if k > 0 { assert entries[1..][k - 1] == entries[k]; }
      }
      if exists k | 0 <= k < |entries| - 1 :: b in Extract(page, entries[1..][k]) {
        var k :| 0 <= k < |entries| - 1 && b in Extract(page, entries[1..][k]);
        assert entries[k + 1] == entries[1..][k];
      }
    }
  }

  /** `extract_text_blocks`: page `p` of the result holds the blocks of
      page `p` of the document. */
  function ExtractDocument(entries: seq<seq<(BBox, string)>>): (r: seq<seq<Block>>)
    ensures |r| == |entries|
    ensures forall p | 0 <= p < |r| :: r[p] == ExtractPage(p, entries[p])
  {
    seq(|entries|, p requires 0 <= p < |entries| => ExtractPage(p, entries[p]))
  }

  /** `SequenceMatcher(None, s, t).ratio()` on the stored normalised texts. */
  function Similarity(a: Block, b: Block, ratio: RatioFn): real {
    ratio(a.norm, b.norm)
  }

  function Scores(target: Block, sources: seq<Block>, ratio: RatioFn): (r: seq<Option<real>>)
    ensures |r| == |sources|
    ensures forall k | 0 <= k < |sources| :: r[k] == Some(Similarity(target, sources[k], ratio))
  {
    seq(|sources|, k requires 0 <= k < |sources| => Some(Similarity(target, sources[k], ratio)))
  }

  /** `find_best_match` of PDdiff.py: the first source with the highest
      similarity, provided that similarity reaches 0.8. */
  function FindBestMatch(target: Block, sources: seq<Block>, ratio: RatioFn): (r: Option<nat>)
    ensures r.Some? ==> r.value < |sources|
  {
    var best := Matching.FirstBest(Scores(target, sources, ratio));
    if best.Some? && best.value.1 >= MatchThreshold then Some(best.value.0) else None
  }

  /** What `find_best_match` returns, in terms of the similarities: the
      first maximum when it reaches 0.8, nothing when every similarity is
      below 0.8 (in particular when there are no sources). */
  lemma FindBestMatchSpec(target: Block, sources: seq<Block>, ratio: RatioFn)
    ensures var r := FindBestMatch(target, sources, ratio);
      && (r.Some? ==> Similarity(target, sources[r.value], ratio) >= MatchThreshold)
      && (r.Some? ==> forall k | 0 <= k < |sources| ::
            Similarity(target, sources[k], ratio) <= Similarity(target, sources[r.value], ratio))
      && (r.Some? ==> forall k | 0 <= k < r.value ::
            Similarity(target, sources[k], ratio) < Similarity(target, sources[r.value], ratio))
      && (r.None? <==> forall k | 0 <= k < |sources| :: Similarity(target, sources[k], ratio) < MatchThreshold)
  {
    var sc := Scores(target, sources, ratio);
    var best := Matching.FirstBest(sc);
    if best.None? {
      forall k | 0 <= k < |sources| ensures Similarity(target, sources[k], ratio) < MatchThreshold {
        assert sc[k].Some?;
      }
    } else {
      var i := best.value.0;
      forall k | 0 <= k < |sources| ensures Similarity(target, sources[k], ratio) <= Similarity(target, sources[i], ratio) {
        assert sc[k].Some?;
      }
      forall k | 0 <= k < i ensures Similarity(target, sources[k], ratio) < Similarity(target, sources[i], ratio) {
        assert sc[k].Some?;
      }
    }
  }

  /** `list.index`: the first position holding a block equal to `x`. */
  function FirstIndex(B: seq<Block>, x: Block): (r: nat)
    requires x in B
    ensures r < |B| && B[r] == x
    ensures forall k | 0 <= k < r :: B[k] != x
  {
    if B[0] == x then 0 else 1 + FirstIndex(B[1..], x)
  }

  // ---------------------------------------------------------------------
  // perform_comparison
  // ---------------------------------------------------------------------

  /** A highlight: rectangle and colour name. */
  datatype Mark = Mark(box: BBox, color: Color)

  /** The two highlight dictionaries, the A-to-B map and
      `matched_b_indices`, as the loops build them. */
  datatype State = State(syncMap: map<nat, nat>, matched: set<nat>,
                         marksA: map<nat, seq<Mark>>, marksB: map<nat, seq<Mark>>)

  const Empty: State := State(map[], {}, map[], map[])

  /** What `perform_comparison` returns. */
  datatype Comparison = Comparison(marksA: map<nat, seq<Mark>>, marksB: map<nat, seq<Mark>>,
                                   flatA: seq<Block>, flatB: seq<Block>, syncMap: map<nat, nat>)

  /** The first half of the loop body over A for block `i`: record the
      match in `matched_b_indices` and the map. */
  function LinkStep(A: seq<Block>, B: seq<Block>, ratio: RatioFn, i: nat, st: State): State
    requires i < |A|
  {
    var best := FindBestMatch(A[i], B, ratio);
    if best.Some? then
      var j := FirstIndex(B, B[best.value]);
      st.(matched := st.matched + {j}, syncMap := st.syncMap[i := j])
    else st
  }

  /** The second half: highlight a modified pair yellow on both sides, an
      unmatched block red. */
  function MarkStep(A: seq<Block>, B: seq<Block>, ratio: RatioFn, i: nat, st: State): State
    requires i < |A|
  {
    var best := FindBestMatch(A[i], B, ratio);
    if best.Some? then
      var b := B[best.value];
      if CompareTextBlocks(A[i].text, b.text) == Modified then
        st.(marksA := AppendAt(st.marksA, A[i].page, Mark(A[i].box, Yellow)),
            marksB := AppendAt(st.marksB, b.page, Mark(b.box, Yellow)))
      else st
    else st.(marksA := AppendAt(st.marksA, A[i].page, Mark(A[i].box, Red)))
  }

  /** The body of the loop over A for block `i`. */
  function MatchStep(A: seq<Block>, B: seq<Block>, ratio: RatioFn, i: nat, st: State): State
    requires i < |A|
  {
    MarkStep(A, B, ratio, i, LinkStep(A, B, ratio, i, st))
  }

  /** The loop over A from block `i` on. */
  function MatchFrom(A: seq<Block>, B: seq<Block>, ratio: RatioFn, i: nat, st: State): State
    requires i <= |A|
    decreases |A| - i
  {
    if i == |A| then st else MatchFrom(A, B, ratio, i + 1, MatchStep(A, B, ratio, i, st))
  }

  /** The body of the loop over B for block `j`. */
  function AddStep(B: seq<Block>, j: nat, st: State): State
    requires j < |B|
  {
    if j in st.matched then st
    else st.(marksB := AppendAt(st.marksB, B[j].page, Mark(B[j].box, Green)))
  }

  /** The loop over B from block `j` on. */
  function AddFrom(B: seq<Block>, j: nat, st: State): State
    requires j <= |B|
    decreases |B| - j
  {
    if j == |B| then st else AddFrom(B, j + 1, AddStep(B, j, st))
  }

  /** `perform_comparison`: flatten both documents, run the loop over A,
      then the loop over B. */
  function PerformComparison(pagesA: seq<seq<Block>>, pagesB: seq<seq<Block>>, ratio: RatioFn): Comparison {
    var A, B := Flatten(pagesA), Flatten(pagesB);
    var st := AddFrom(B, 0, MatchFrom(A, B, ratio, 0, Empty));
    Comparison(st.marksA, st.marksB, A, B, st.syncMap)
  }

  // ---------------------------------------------------------------------
  // What perform_comparison reports
  // ---------------------------------------------------------------------

  /** Block `a` of A is mapped to `j`: it has a match, and `j` is the first
      position of B holding a block equal to that match. */
  ghost predicate SyncedTo(A: seq<Block>, B: seq<Block>, ratio: RatioFn, a: nat, j: nat) {
    && a < |A|
    && FindBestMatch(A[a], B, ratio).Some?
    && j < |B|
    && B[j] == B[FindBestMatch(A[a], B, ratio).value]
    && forall k | 0 <= k < j :: B[k] != B[FindBestMatch(A[a], B, ratio).value]
  }

  /** The highlight block `i` of A gets: red when no block of B is similar
      enough, yellow when its match differs and is no placeholder change. */
  function AItem(A: seq<Block>, B: seq<Block>, ratio: RatioFn, i: nat): set<(nat, Mark)> {
    if i >= |A| then {}
    else if FindBestMatch(A[i], B, ratio).None? then {(A[i].page, Mark(A[i].box, Red))}
    else if CompareTextBlocks(A[i].text, B[FindBestMatch(A[i], B, ratio).value].text) == Modified then
      {(A[i].page, Mark(A[i].box, Yellow))}
    else {}
  }

  /** The yellow highlight the match of block `i` of A gets in B. */
  function BItem(A: seq<Block>, B: seq<Block>, ratio: RatioFn, i: nat): set<(nat, Mark)> {
    if i >= |A| || FindBestMatch(A[i], B, ratio).None? then {}
    else
      var b := B[FindBestMatch(A[i], B, ratio).value];
      if CompareTextBlocks(A[i].text, b.text) == Modified then {(b.page, Mark(b.box, Yellow))} else {}
  }

  /** The green highlight of block `j` of B when no block of A is mapped
      to it. */
  function GItem(B: seq<Block>, matched: set<nat>, j: nat): set<(nat, Mark)> {
    if j < |B| && j !in matched then {(B[j].page, Mark(B[j].box, Green))} else {}
  }

  function AItems(A: seq<Block>, B: seq<Block>, ratio: RatioFn): nat -> set<(nat, Mark)> {
    i => AItem(A, B, ratio, i)
  }

  function BItems(A: seq<Block>, B: seq<Block>, ratio: RatioFn): nat -> set<(nat, Mark)> {
    i => BItem(A, B, ratio, i)
  }

  function GItems(B: seq<Block>, matched: set<nat>): nat -> set<(nat, Mark)> {
    j => GItem(B, matched, j)
  }

  /** The blocks of A among the first `i` that have a match are the keys. */
  ghost predicate SyncKeys(A: seq<Block>, B: seq<Block>, ratio: RatioFn, i: nat, m: map<nat, nat>) {
    i <= |A| && forall a: nat :: a in m <==> a < i && FindBestMatch(A[a], B, ratio).Some?
  }

  /** Every key is mapped to the first copy of its match. */
  ghost predicate SyncTargets(A: seq<Block>, B: seq<Block>, ratio: RatioFn, m: map<nat, nat>) {
    forall a | a in m :: SyncedTo(A, B, ratio, a, m[a])
  }

  /** The map and the matched set after the first `i` blocks of A. */
  ghost predicate SyncInv(A: seq<Block>, B: seq<Block>, ratio: RatioFn, i: nat, m: map<nat, nat>, matched: set<nat>) {
    SyncKeys(A, B, ratio, i, m) && SyncTargets(A, B, ratio, m) && matched == m.Values
  }

  /** The highlights after the first `i` blocks of A. */
  ghost predicate MarksInv(A: seq<Block>, B: seq<Block>, ratio: RatioFn, i: nat,
                           marksA: map<nat, seq<Mark>>, marksB: map<nat, seq<Mark>>) {
    && MarksHold(marksA, Collect(AItems(A, B, ratio), i))
    && MarksHold(marksB, Collect(BItems(A, B, ratio), i))
  }

  lemma KeysStep(A: seq<Block>, B: seq<Block>, ratio: RatioFn, i: nat, m: map<nat, nat>, m': map<nat, nat>)
    requires i < |A| && SyncKeys(A, B, ratio, i, m)
    requires m'.Keys == m.Keys + (if FindBestMatch(A[i], B, ratio).Some? then {i} else {})
    ensures SyncKeys(A, B, ratio, i + 1, m')
  {
    forall a: nat ensures a in m' <==> a < i + 1 && FindBestMatch(A[a], B, ratio).Some? {
      if a == i {
      } else {
        assert a in m' <==> a in m;
      }
    }
  }

  lemma TargetsStep(A: seq<Block>, B: seq<Block>, ratio: RatioFn, i: nat, j: nat, m: map<nat, nat>)
    requires SyncTargets(A, B, ratio, m) && SyncedTo(A, B, ratio, i, j)
    ensures SyncTargets(A, B, ratio, m[i := j])
  {
  }

  lemma LinkKeys(A: seq<Block>, B: seq<Block>, ratio: RatioFn, i: nat, st: State, r: State)
    requires i < |A| && SyncKeys(A, B, ratio, i, st.syncMap) && r == LinkStep(A, B, ratio, i, st)
    ensures SyncKeys(A, B, ratio, i + 1, r.syncMap)
  {
    KeysStep(A, B, ratio, i, st.syncMap, r.syncMap);
  }

  lemma LinkTargets(A: seq<Block>, B: seq<Block>, ratio: RatioFn, i: nat, st: State, r: State)
    requires i < |A| && SyncTargets(A, B, ratio, st.syncMap) && r == LinkStep(A, B, ratio, i, st)
    ensures SyncTargets(A, B, ratio, r.syncMap)
  {
    var best := FindBestMatch(A[i], B, ratio);
    if best.Some? {
      var j := FirstIndex(B, B[best.value]);
      TargetsStep(A, B, ratio, i, j, st.syncMap);
    }
  }

  lemma LinkValues(A: seq<Block>, B: seq<Block>, ratio: RatioFn, i: nat, st: State, r: State)
    requires i < |A| && SyncKeys(A, B, ratio, i, st.syncMap) && st.matched == st.syncMap.Values
    requires r == LinkStep(A, B, ratio, i, st)
    ensures r.matched == r.syncMap.Values
  {
    var best := FindBestMatch(A[i], B, ratio);
    if best.Some? {
      var j := FirstIndex(B, B[best.value]);
      assert i !in st.syncMap;
      ValuesAdd(st.syncMap, i, j);
    }
  }

  lemma LinkStepKeeps(A: seq<Block>, B: seq<Block>, ratio: RatioFn, i: nat, st: State, r: State)
    requires i < |A| && SyncInv(A, B, ratio, i, st.syncMap, st.matched) && r == LinkStep(A, B, ratio, i, st)
    ensures SyncInv(A, B, ratio, i + 1, r.syncMap, r.matched)
    ensures r.marksA == st.marksA && r.marksB == st.marksB
  {
    LinkKeys(A, B, ratio, i, st, r);
    LinkTargets(A, B, ratio, i, st, r);
    LinkValues(A, B, ratio, i, st, r);
  }

  lemma MarkStepKeeps(A: seq<Block>, B: seq<Block>, ratio: RatioFn, i: nat, st: State, r: State)
    requires i < |A| && MarksInv(A, B, ratio, i, st.marksA, st.marksB) && r == MarkStep(A, B, ratio, i, st)
    ensures MarksInv(A, B, ratio, i + 1, r.marksA, r.marksB)
    ensures r.syncMap == st.syncMap && r.matched == st.matched
  {
    var best := FindBestMatch(A[i], B, ratio);
    var itemsA, itemsB := Collect(AItems(A, B, ratio), i), Collect(BItems(A, B, ratio), i);
    assert Collect(AItems(A, B, ratio), i + 1) == itemsA + AItem(A, B, ratio, i);
    assert Collect(BItems(A, B, ratio), i + 1) == itemsB + BItem(A, B, ratio, i);
    if best.None? {
      MarksAppend(st.marksA, itemsA, A[i].page, Mark(A[i].box, Red));
    } else {
      var b := B[best.value];
      if CompareTextBlocks(A[i].text, b.text) == Modified {
        MarksAppend(st.marksA, itemsA, A[i].page, Mark(A[i].box, Yellow));
        MarksAppend(st.marksB, itemsB, b.page, Mark(b.box, Yellow));
      }
    }
  }

  lemma {:induction false} MatchFromKeeps(A: seq<Block>, B: seq<Block>, ratio: RatioFn, i: nat, st: State, r: State)
    requires i <= |A| && r == MatchFrom(A, B, ratio, i, st)
    requires SyncInv(A, B, ratio, i, st.syncMap, st.matched) && MarksInv(A, B, ratio, i, st.marksA, st.marksB)
    ensures SyncInv(A, B, ratio, |A|, r.syncMap, r.matched) && MarksInv(A, B, ratio, |A|, r.marksA, r.marksB)
    decreases |A| - i
  {
    if i < |A| {
      var linked := LinkStep(A, B, ratio, i, st);
      LinkStepKeeps(A, B, ratio, i, st, linked);
      var marked := MarkStep(A, B, ratio, i, linked);
      MarkStepKeeps(A, B, ratio, i, linked, marked);
      MatchFromKeeps(A, B, ratio, i + 1, marked, r);
    }
  }

  lemma {:induction false} AddFromKeeps(B: seq<Block>, j: nat, st: State, items: set<(nat, Mark)>, r: State)
    requires j <= |B| && r == AddFrom(B, j, st)
    requires MarksHold(st.marksB, items + Collect(GItems(B, st.matched), j))
    ensures r.syncMap == st.syncMap && r.matched == st.matched && r.marksA == st.marksA
    ensures MarksHold(r.marksB, items + Collect(GItems(B, st.matched), |B|))
    decreases |B| - j
  {
    if j < |B| {
      var next := AddStep(B, j, st);
      var before := items + Collect(GItems(B, st.matched), j);
      assert items + Collect(GItems(B, st.matched), j + 1) == before + GItem(B, st.matched, j);
      if j !in st.matched {
        MarksAppend(st.marksB, before, B[j].page, Mark(B[j].box, Green));
      }
      AddFromKeeps(B, j + 1, next, items, r);
    }
  }

  /** Everything `perform_comparison` reports about the flattened blocks. */
  ghost predicate Reported(A: seq<Block>, B: seq<Block>, ratio: RatioFn, out: Comparison) {
    && SyncKeys(A, B, ratio, |A|, out.syncMap)
    && SyncTargets(A, B, ratio, out.syncMap)
    && MarksHold(out.marksA, Collect(AItems(A, B, ratio), |A|))
    && MarksHold(out.marksB, Collect(BItems(A, B, ratio), |A|) + Collect(GItems(B, out.syncMap.Values), |B|))
  }

  lemma MatchPhase(A: seq<Block>, B: seq<Block>, ratio: RatioFn, st: State)
    requires st == MatchFrom(A, B, ratio, 0, Empty)
    ensures SyncInv(A, B, ratio, |A|, st.syncMap, st.matched)
    ensures MarksInv(A, B, ratio, |A|, st.marksA, st.marksB)
  {
    assert MarksInv(A, B, ratio, 0, map[], map[]) by {
      assert MarksHold<Mark>(map[], {});
    }
    MatchFromKeeps(A, B, ratio, 0, Empty, st);
  }

  lemma AddPhase(B: seq<Block>, st: State, fin: State, items: set<(nat, Mark)>)
    requires fin == AddFrom(B, 0, st) && MarksHold(st.marksB, items)
    ensures fin.syncMap == st.syncMap && fin.matched == st.matched && fin.marksA == st.marksA
    ensures MarksHold(fin.marksB, items + Collect(GItems(B, st.matched), |B|))
  {
    assert items + Collect(GItems(B, st.matched), 0) == items;
    AddFromKeeps(B, 0, st, items, fin);
  }

  lemma ComparisonReported(pagesA: seq<seq<Block>>, pagesB: seq<seq<Block>>, ratio: RatioFn, out: Comparison)
    requires out == PerformComparison(pagesA, pagesB, ratio)
    ensures out.flatA == Flatten(pagesA) && out.flatB == Flatten(pagesB)
    ensures Reported(out.flatA, out.flatB, ratio, out)
  {
    var A, B := Flatten(pagesA), Flatten(pagesB);
    var st := MatchFrom(A, B, ratio, 0, Empty);
    var fin := AddFrom(B, 0, st);
    MatchPhase(A, B, ratio, st);
    AddPhase(B, st, fin, Collect(BItems(A, B, ratio), |A|));
  }

  /** The A-to-B map: exactly the blocks of A with a match, each sent to the
      first block of B equal to its match. */
  lemma PerformComparisonSync(pagesA: seq<seq<Block>>, pagesB: seq<seq<Block>>, ratio: RatioFn, out: Comparison)
    requires out == PerformComparison(pagesA, pagesB, ratio)
    ensures out.flatA == Flatten(pagesA) && out.flatB == Flatten(pagesB)
    ensures forall a: nat :: a in out.syncMap <==> a < |out.flatA| && FindBestMatch(out.flatA[a], out.flatB, ratio).Some?
    ensures forall a | a in out.syncMap :: SyncedTo(out.flatA, out.flatB, ratio, a, out.syncMap[a])
  {
    ComparisonReported(pagesA, pagesB, ratio, out);
  }

  lemma AItemsMembers(A: seq<Block>, B: seq<Block>, ratio: RatioFn, x: (nat, Mark))
    ensures x in Collect(AItems(A, B, ratio), |A|) <==> exists i | 0 <= i < |A| :: x in AItem(A, B, ratio, i)
  {
    CollectMembers(AItems(A, B, ratio), |A|, x);
    if x in Collect(AItems(A, B, ratio), |A|) {
      var i :| 0 <= i < |A| && x in AItems(A, B, ratio)(i);
      assert x in AItem(A, B, ratio, i);
    }
    if exists i | 0 <= i < |A| :: x in AItem(A, B, ratio, i) {
      var i :| 0 <= i < |A| && x in AItem(A, B, ratio, i);
      assert x in AItems(A, B, ratio)(i);
    }
  }

  lemma BItemsMembers(A: seq<Block>, B: seq<Block>, ratio: RatioFn, x: (nat, Mark))
    ensures x in Collect(BItems(A, B, ratio), |A|) <==> exists i | 0 <= i < |A| :: x in BItem(A, B, ratio, i)
  {
    CollectMembers(BItems(A, B, ratio), |A|, x);
    if x in Collect(BItems(A, B, ratio), |A|) {
      var i :| 0 <= i < |A| && x in BItems(A, B, ratio)(i);
      assert x in BItem(A, B, ratio, i);
    }
    if exists i | 0 <= i < |A| :: x in BItem(A, B, ratio, i) {
      var i :| 0 <= i < |A| && x in BItem(A, B, ratio, i);
      assert x in BItems(A, B, ratio)(i);
    }
  }

  lemma GItemsMembers(B: seq<Block>, c: set<nat>, x: (nat, Mark))
    ensures x in Collect(GItems(B, c), |B|) <==> exists j | 0 <= j < |B| :: x in GItem(B, c, j)
  {
    CollectMembers(GItems(B, c), |B|, x);
    if x in Collect(GItems(B, c), |B|) {
      var j :| 0 <= j < |B| && x in GItems(B, c)(j);
      assert x in GItem(B, c, j);
    }
    if exists j | 0 <= j < |B| :: x in GItem(B, c, j) {
      var j :| 0 <= j < |B| && x in GItem(B, c, j);
      assert x in GItems(B, c)(j);
    }
  }

  /** The highlights on A: red for every block without a match, yellow for
      every block whose match was modified, and nothing else. */
  lemma PerformComparisonMarksA(pagesA: seq<seq<Block>>, pagesB: seq<seq<Block>>, ratio: RatioFn, out: Comparison)
    requires out == PerformComparison(pagesA, pagesB, ratio)
    ensures forall p, h :: (p in out.marksA && h in out.marksA[p]) <==>
      exists i | 0 <= i < |out.flatA| :: (p, h) in AItem(out.flatA, out.flatB, ratio, i)
  {
    ComparisonReported(pagesA, pagesB, ratio, out);
    ReportedMarksA(out.flatA, out.flatB, ratio, out);
  }

  lemma ReportedMarksA(A: seq<Block>, B: seq<Block>, ratio: RatioFn, out: Comparison)
    requires Reported(A, B, ratio, out)
    ensures forall p, h :: (p in out.marksA && h in out.marksA[p]) <==>
      exists i | 0 <= i < |A| :: (p, h) in AItem(A, B, ratio, i)
  {
    forall p, h ensures (p in out.marksA && h in out.marksA[p]) <==>
      exists i | 0 <= i < |A| :: (p, h) in AItem(A, B, ratio, i)
    {
      AItemsMembers(A, B, ratio, (p, h));
    }
  }

  /** The highlights on B: yellow for the match of every modified block of
      A, green for every block no block of A is mapped to, and nothing
      else. */
  lemma PerformComparisonMarksB(pagesA: seq<seq<Block>>, pagesB: seq<seq<Block>>, ratio: RatioFn, out: Comparison)
    requires out == PerformComparison(pagesA, pagesB, ratio)
    ensures forall p, h :: (p in out.marksB && h in out.marksB[p]) <==>
      || (exists i | 0 <= i < |out.flatA| :: (p, h) in BItem(out.flatA, out.flatB, ratio, i))
      || (exists j | 0 <= j < |out.flatB| :: (p, h) in GItem(out.flatB, out.syncMap.Values, j))
  {
    ComparisonReported(pagesA, pagesB, ratio, out);
    ReportedMarksB(out.flatA, out.flatB, ratio, out);
  }

  lemma ReportedMarksB(A: seq<Block>, B: seq<Block>, ratio: RatioFn, out: Comparison)
    requires MarksHold(out.marksB, Collect(BItems(A, B, ratio), |A|) + Collect(GItems(B, out.syncMap.Values), |B|))
    ensures forall p, h :: (p in out.marksB && h in out.marksB[p]) <==>
      || (exists i | 0 <= i < |A| :: (p, h) in BItem(A, B, ratio, i))
      || (exists j | 0 <= j < |B| :: (p, h) in GItem(B, out.syncMap.Values, j))
  {
    forall p, h ensures (p in out.marksB && h in out.marksB[p]) <==>
      || (exists i | 0 <= i < |A| :: (p, h) in BItem(A, B, ratio, i))
      || (exists j | 0 <= j < |B| :: (p, h) in GItem(B, out.syncMap.Values, j))
    {
      assert (p in out.marksB && h in out.marksB[p]) <==>
        (p, h) in Collect(BItems(A, B, ratio), |A|) + Collect(GItems(B, out.syncMap.Values), |B|);
      BItemsMembers(A, B, ratio, (p, h));
      GItemsMembers(B, out.syncMap.Values, (p, h));
    }
  }

  /** Flattening keeps pages in order and each page's blocks in order:
      page `p` sits between the pages before it and the pages after it. */
  lemma FlattenPage(pages: seq<seq<Block>>, p: nat)
    requires p < |pages|
    ensures Flatten(pages) == Flatten(pages[..p]) + pages[p] + Flatten(pages[p + 1..])
  {
    FlattenSplit(pages, p + 1);
    FlattenLast(pages, p);
  }

  lemma FlattenSplit(pages: seq<seq<Block>>, k: nat)
    requires k <= |pages|
    ensures Flatten(pages) == Flatten(pages[..k]) + Flatten(pages[k..])
  {
    FlattenAppend(pages[..k], pages[k..]);
    assert pages[..k] + pages[k..] == pages;
  }

  lemma FlattenLast(pages: seq<seq<Block>>, p: nat)
    requires p < |pages|
    ensures Flatten(pages[..p + 1]) == Flatten(pages[..p]) + pages[p]
  {
    assert pages[..p + 1][..p] == pages[..p];
  }

  /** The map need not be one-to-one: two equal blocks of A that both
      reach the threshold against a single block of B are both mapped
      to it. */
  lemma SyncMapNotInjective(x: Block, ratio: RatioFn, out: Comparison)
    requires ratio(x.norm, x.norm) >= MatchThreshold
    requires out == PerformComparison([[x, x]], [[x]], ratio)
    ensures out.syncMap == map[0 := 0, 1 := 0]
    ensures !Injective(out.syncMap)
  {
    PerformComparisonSync([[x, x]], [[x]], ratio, out);
    FlattenPair(x);
    SelfMatch(x, ratio);
    SyncOfPair(x, ratio, out.syncMap);
    assert out.syncMap[0] == out.syncMap[1];
  }

  lemma FlattenPair(x: Block)
    ensures Flatten([[x, x]]) == [x, x] && Flatten([[x]]) == [x]
  {
    assert [[x, x]][..0] == [] && [[x]][..0] == [];
  }

  lemma SelfMatch(x: Block, ratio: RatioFn)
    requires ratio(x.norm, x.norm) >= MatchThreshold
    ensures FindBestMatch(x, [x], ratio) == Some(0)
  {
    FindBestMatchSpec(x, [x], ratio);
    assert Similarity(x, [x][0], ratio) >= MatchThreshold;
  }

  lemma SyncOfPair(x: Block, ratio: RatioFn, m: map<nat, nat>)
    requires FindBestMatch(x, [x], ratio) == Some(0)
    requires forall a: nat :: a in m <==> a < 2 && FindBestMatch([x, x][a], [x], ratio).Some?
    requires forall a | a in m :: SyncedTo([x, x], [x], ratio, a, m[a])
    ensures m == map[0 := 0, 1 := 0]
  {
    assert 0 in m && 1 in m;
    assert SyncedTo([x, x], [x], ratio, 0, m[0]) && SyncedTo([x, x], [x], ratio, 1, m[1]);
    assert m.Keys == {0, 1} by {
      forall a | a in m ensures a == 0 || a == 1 { }
    }
  }
}
