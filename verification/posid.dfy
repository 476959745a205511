/** The word pipeline of the position-tracking viewer: token filtering and
    normalisation (`is_meaningless_word`, `normalize_korean_number`,
    `split_by_comma`, `normalize_word`), the per-selection word records, and
    the dispatch of aligner records to coloured word highlights. */
module Posid {
  import opened Basics
  import opened Text
  import Sorting
  import Aligner

  // ---------------------------------------------------------------------
  // Meaningless tokens
  // ---------------------------------------------------------------------

  /** Substrings that mark a token as part of a URL. */
  const UrlFragments: seq<string> := ["http", "https", "www.", ".com", ".net", ".org", ".go.kr", ".kr", "ftp://"]

  /** The bullet and symbol tokens: every one of them is a single character
      (`o`, `O`, circles, squares, diamonds, triangles, stars, check marks,
      dashes, arrows and the circled numbers ① to ⑩). */
  predicate IsBulletChar(c: char) {
    || c == 'o' || c == 'O' || c == '-'
    || c == '•' || c == '●' || c == '○' || c == '◦' || c == '⦿' || c == '⦾'
    || c == '■' || c == '□' || c == '▪' || c == '▫' || c == '◾' || c == '◽'
    || c == '◆' || c == '◇' || c == '◈'
    || c == '▶' || c == '▷' || c == '►' || c == '▸'
    || c == '※' || c == '★' || c == '☆' || c == '✓' || c == '✔' || c == '✕' || c == '✖'
    || c == '–' || c == '—' || c == '―'
    || c == '→' || c == '←' || c == '↑' || c == '↓'
    || ('①' <= c <= '⑩')
  }

  /** `word.strip() in bullet_points`. */
  predicate IsBullet(t: string) {
    |t| == 1 && IsBulletChar(t[0])
  }

  /** Some fragment of `frags` occurs in `s`. */
  predicate ContainsAny(s: string, frags: seq<string>)
    decreases |frags|
  {
    |frags| > 0 && (Contains(s, frags[0]) || ContainsAny(s, frags[1..]))
  }

  /** A string none of whose characters starts a fragment contains none of them. */
  lemma {:induction false} ContainsAnyFirstChar(s: string, frags: seq<string>)
    requires forall k | 0 <= k < |frags| :: |frags[k]| > 0 && frags[k][0] !in s
    decreases |frags|
    ensures !ContainsAny(s, frags)
  {
    if |frags| > 0 {
      var f := frags[0];
      forall q | 0 <= q <= |s| ensures !OccursAt(s, f, q) {
        if q + |f| <= |s| {
          assert s[q..q + |f|][0] == s[q];
          assert s[q] in s;
        }
      }
      ContainsAnyFirstChar(s, frags[1..]);
    }
  }

  /** `is_korean(c)`. */
  predicate IsKoreanChar(c: char) { IsKorean(c) }

  /** A single character that is neither alphanumeric nor Korean. */
  predicate IsLoneSymbol(t: string) {
    |t| == 1 && !(IsAlnum(t[0]) || IsKoreanChar(t[0]))
  }

  /** A one- or two-digit number, such as a page number. */
  predicate IsShortNumber(t: string) {
    0 < |t| <= 2 && AllDigits(t)
  }

  /** `is_meaningless_word(word)`: URL fragments are looked for in the
      lower-cased token, the other tests look at the stripped token. */
  predicate IsMeaningless(word: string) {
    var t := Strip(word);
    ContainsAny(Lower(word), UrlFragments) || IsBullet(t) || IsLoneSymbol(t) || IsShortNumber(t)
  }

  /** The first characters of the URL fragments. */
  predicate IsUrlHead(c: char) { c == 'h' || c == 'w' || c == '.' || c == 'f' }

  lemma UrlFragmentHeads()
    ensures forall k | 0 <= k < |UrlFragments| :: |UrlFragments[k]| > 0 && IsUrlHead(UrlFragments[k][0])
  {
  }

  /** A token with none of the characters `h`, `w`, `.`, `f` is no URL. */
  lemma NoUrl(s: string)
    requires forall i | 0 <= i < |s| :: !IsUrlHead(s[i])
    ensures !ContainsAny(s, UrlFragments)
  {
    UrlFragmentHeads();
    assert forall k | 0 <= k < |UrlFragments| :: |UrlFragments[k]| > 0 && UrlFragments[k][0] !in s;
    ContainsAnyFirstChar(s, UrlFragments);
  }

  /** A trimmed token without upper-case letters or URL characters is
      meaningless exactly when it is a bullet, a lone symbol or a short number. */
  lemma MeaninglessPlain(w: string)
    requires Trimmed(w) && NoUpper(w)
    requires forall i | 0 <= i < |w| :: !IsUrlHead(w[i])
    ensures IsMeaningless(w) <==> IsBullet(w) || IsLoneSymbol(w) || IsShortNumber(w)
  {
    StripIdentity(w);
    LowerIdentity(w);
    NoUrl(w);
  }

  /** Tokens of two or more Hangul syllables are never discarded as noise. */
  lemma HangulWordMeaningful(w: string)
    requires |w| >= 2
    requires forall i | 0 <= i < |w| :: IsHangulSyllable(w[i])
    ensures !IsMeaningless(w)
  {
    assert !IsSpace(w[0]) && !IsSpace(w[|w| - 1]);
    MeaninglessPlain(w);
    assert !IsDigit(w[0]);
  }

  // ---------------------------------------------------------------------
  // Korean number units
  // ---------------------------------------------------------------------

  /** A character of the class `[0-9,]`. */
  predicate IsNumeralChar(c: char) { IsDigit(c) || c == ',' }

  /** The length of the longest run of `[0-9,]` characters starting at `p`. */
  function RunLength(s: string, p: nat): (n: nat)
    requires p <= |s|
    decreases |s| - p
    ensures p + n <= |s|
    ensures forall i | p <= i < p + n :: IsNumeralChar(s[i])
    ensures p + n == |s| || !IsNumeralChar(s[p + n])
  {
    if p < |s| && IsNumeralChar(s[p]) then 1 + RunLength(s, p + 1) else 0
  }

  /** `re.search('([0-9,]+)' + unit, s)` can match at position `q`: a
      non-empty `[0-9,]` run starts there and the unit follows it. Because the
      unit is not itself a numeral character, backtracking never helps, so it
      is enough to look right after the longest run. */
  predicate MatchesAt(s: string, unit: char, q: nat) {
    q < |s| && IsNumeralChar(s[q]) && q + RunLength(s, q) < |s| && s[q + RunLength(s, q)] == unit
  }

  /** The leftmost match position at or after `p`, as the regex engine tries them. */
  function SearchUnit(s: string, unit: char, p: nat): (r: Option<nat>)
    requires p <= |s|
    decreases |s| - p
    ensures r.Some? ==> p <= r.value && MatchesAt(s, unit, r.value)
    ensures r.Some? ==> forall q | p <= q < r.value :: !MatchesAt(s, unit, q)
    ensures r.None? ==> forall q | p <= q <= |s| :: !MatchesAt(s, unit, q)
  {
    if p == |s| then None
    else if MatchesAt(s, unit, p) then Some(p)
    else SearchUnit(s, unit, p + 1)
  }

  /** Dropping the commas of a `[0-9,]` run leaves only digits. */
  lemma {:induction false} RemoveCommaDigits(t: string)
    requires forall i | 0 <= i < |t| :: IsNumeralChar(t[i])
    ensures AllDigits(RemoveChar(t, ','))
  {
    if t != [] {
      RemoveCommaDigits(t[1..]);
    }
  }

  /** One unit of `normalize_korean_number`: the leftmost `[0-9,]+unit` match
      is evaluated (commas dropped) and multiplied, and every occurrence of the
      matched text is replaced by the product. A match made of commas only
      fails to parse as an integer, and the text is left as it is. */
  function ConvertUnit(s: string, unit: char, multiplier: nat): (r: string)
    requires !IsNumeralChar(unit)
  {
    var m := SearchUnit(s, unit, 0);
    if m.None? then s else ConvertMatch(s, m.value, RunLength(s, m.value), multiplier)
  }

  /** Evaluates the numeral `s[q..q+n]` in front of the unit at `s[q+n]`. */
  function ConvertMatch(s: string, q: nat, n: nat, multiplier: nat): string
    requires q + n < |s|
    requires forall i | q <= i < q + n :: IsNumeralChar(s[i])
  {
    var digits := RemoveChar(s[q..q + n], ',');
    if digits == [] then s
    else
      NumeralRunDigits(s, q, n);
      ReplaceAll(s, s[q..q + n + 1], NatToString(DecimalValue(digits) * multiplier))
  }

  const Jo: char := '조'
  const Eok: char := '억'
  const Man: char := '만'

  /** `normalize_korean_number(text)`: 조, 억 and 만 in that order, then every
      remaining comma is removed. */
  function NormalizeKoreanNumber(s: string): (r: string)
    ensures ',' !in r
  {
    var a := ConvertUnit(s, Jo, 1_000_000_000_000);
    var b := ConvertUnit(a, Eok, 100_000_000);
    var c := ConvertUnit(b, Man, 10_000);
    RemoveChar(c, ',')
  }

  /** A run of exactly `n` numerals followed by a non-numeral has run length `n`. */
  lemma {:induction false} RunLengthExact(s: string, p: nat, n: nat)
    requires p + n <= |s|
    requires forall i | p <= i < p + n :: IsNumeralChar(s[i])
    requires p + n == |s| || !IsNumeralChar(s[p + n])
    decreases n
    ensures RunLength(s, p) == n
  {
    if n > 0 {
      RunLengthExact(s, p + 1, n - 1);
    }
  }

  /** No position left of the leftmost match holds a copy of its text:
      such a copy would itself be an earlier match. */
  lemma NoEarlierCopy(s: string, unit: char, q: nat, pat: string)
    requires !IsNumeralChar(unit)
    requires MatchesAt(s, unit, q)
    requires forall q' | 0 <= q' < q :: !MatchesAt(s, unit, q')
    requires pat == s[q..q + RunLength(s, q) + 1]
    ensures forall q' | 0 <= q' < q :: !OccursAt(s, pat, q')
  {
    var n := RunLength(s, q);
    forall q' | 0 <= q' < q ensures !OccursAt(s, pat, q') {
      if OccursAt(s, pat, q') {
        forall i | q' <= i < q' + n ensures IsNumeralChar(s[i]) {
          assert s[i] == pat[i - q'] == s[q + (i - q')];
        }
        assert s[q' + n] == pat[n] == unit;
        RunLengthExact(s, q', n);
        assert MatchesAt(s, unit, q');
      }
    }
  }

  lemma ConvertMatchUnfold(s: string, q: nat, n: nat, multiplier: nat, pat: string, digits: string)
    requires q + n < |s|
    requires forall i | q <= i < q + n :: IsNumeralChar(s[i])
    requires pat == s[q..q + n + 1]
    requires digits == RemoveChar(s[q..q + n], ',') && digits != []
    ensures AllDigits(digits)
    ensures ConvertMatch(s, q, n, multiplier) == ReplaceAll(s, pat, NatToString(DecimalValue(digits) * multiplier))
  {
    NumeralRunDigits(s, q, n);
  }

  /** The digits of a numeral run, commas dropped, are all digits. */
  lemma NumeralRunDigits(s: string, q: nat, n: nat)
    requires q + n <= |s|
    requires forall i | q <= i < q + n :: IsNumeralChar(s[i])
    ensures AllDigits(RemoveChar(s[q..q + n], ','))
  {
    var t := s[q..q + n];
    assert forall i | 0 <= i < |t| :: IsNumeralChar(t[i]) by {
      forall i | 0 <= i < |t| ensures IsNumeralChar(t[i]) {
        assert t[i] == s[q + i];
      }
    }
    RemoveCommaDigits(t);
  }

  /** Replacing every copy of the leftmost match's text starts at that match:
      no copy of it begins earlier. */
  lemma LeftmostCopyFirst(s: string, unit: char, q: nat, pat: string, rep: string)
    requires !IsNumeralChar(unit)
    requires SearchUnit(s, unit, 0) == Some(q)
    requires pat == s[q..q + RunLength(s, q) + 1]
    ensures ReplaceAll(s, pat, rep) == s[..q] + rep + ReplaceAll(s[q + |pat|..], pat, rep)
  {
    NoEarlierCopy(s, unit, q, pat);
    assert OccursAt(s, pat, q);
    ReplaceAllFirst(s, pat, rep, q);
  }

  /** A match with digits rewrites every copy of the matched text. */
  lemma ConvertUnitReplaces(s: string, unit: char, multiplier: nat, q: nat,
                            pat: string, digits: string, rep: string)
    requires !IsNumeralChar(unit)
    requires SearchUnit(s, unit, 0) == Some(q)
    requires pat == s[q..q + RunLength(s, q) + 1]
    requires digits == RemoveChar(s[q..q + RunLength(s, q)], ',') && digits != []
    requires AllDigits(digits) && rep == NatToString(DecimalValue(digits) * multiplier)
    ensures ConvertUnit(s, unit, multiplier) == ReplaceAll(s, pat, rep)
  {
    assert MatchesAt(s, unit, q);
    ConvertMatchUnfold(s, q, RunLength(s, q), multiplier, pat, digits);
  }

  /** The rewrite leaves the text before the leftmost match alone, replaces
      that match, and also replaces every later copy of the same text (and
      nothing else): later matches with different digits stay as they are. */
  lemma ConvertUnitRewritesLeftmost(s: string, unit: char, multiplier: nat, q: nat,
                                    pat: string, digits: string, rep: string)
    requires !IsNumeralChar(unit)
    requires SearchUnit(s, unit, 0) == Some(q)
    requires pat == s[q..q + RunLength(s, q) + 1]
    requires digits == RemoveChar(s[q..q + RunLength(s, q)], ',') && digits != []
    requires AllDigits(digits) && rep == NatToString(DecimalValue(digits) * multiplier)
    ensures ConvertUnit(s, unit, multiplier) == s[..q] + rep + ReplaceAll(s[q + |pat|..], pat, rep)
  {
    ConvertUnitReplaces(s, unit, multiplier, q, pat, digits, rep);
    LeftmostCopyFirst(s, unit, q, pat, rep);
  }

  /** `",만"` has a match made of commas only; `int('')` fails and the text stays. */
  lemma CommaOnlyNumeralUnchanged()
    ensures ConvertUnit(",만", Man, 10_000) == ",만"
  {
    var s := ",만";
    RunLengthExact(s, 0, 1);
    assert MatchesAt(s, Man, 0);
    assert SearchUnit(s, Man, 0) == Some(0);
    assert s[0..1] == [','];
    RemoveCharCons(',', [], ',');
  }

  /** A text without the unit character has no match and is left alone. */
  lemma ConvertUnitNoUnit(s: string, unit: char, multiplier: nat)
    requires !IsNumeralChar(unit) && unit !in s
    ensures ConvertUnit(s, unit, multiplier) == s
  {
    forall q | 0 <= q <= |s| ensures !MatchesAt(s, unit, q) {
      if q < |s| && q + RunLength(s, q) < |s| {
        assert s[q + RunLength(s, q)] in s;
      }
    }
  }

  lemma TenMillionDigits()
    ensures NatToString(1000) == "1000"
    ensures NatToString(10_000_000) == "10000000"
  {
    assert NatToString(1) == "1";
    assert NatToString(10) == "10";
    assert NatToString(100) == "100";
    assert NatToString(1000) == "1000";
    assert NatToString(10000) == "10000";
    assert NatToString(100000) == "100000";
    assert NatToString(1000000) == "1000000";
    assert NatToString(10000000) == "10000000";
  }

  lemma ThousandDigits()
    ensures RemoveChar("1,000", ',') == "1000"
  {
    assert "1,000" == ['1'] + ([','] + "000");
    RemoveCharCons('1', [','] + "000", ',');
    RemoveCharCons(',', "000", ',');
    assert RemoveChar("000", ',') == "000";
  }

  lemma ThousandValue()
    ensures DecimalValue("1000") == 1000
  {
    assert NatToString(1000) == "1000";
    DecimalRoundTrip(1000);
  }

  lemma TenMillionProduct(x: string)
    requires x == "1000"
    ensures NatToString(DecimalValue(x) * 10_000) == "10000000"
  {
    ThousandValue();
    TenMillionDigits();
  }

  lemma ThousandManTail(s: string)
    requires s == "1,000만원"
    ensures ReplaceAll(s[6..], s[0..6], "10000000") == "원"
  {
    var rest, pat := s[6..], s[0..6];
    assert rest == "원" && |pat| == 6;
  }

  lemma ThousandManMatch(s: string)
    requires s == "1,000만원"
    ensures SearchUnit(s, Man, 0) == Some(0) && RunLength(s, 0) == 5
    ensures RemoveChar(s[0..5], ',') == "1000"
  {
    RunLengthExact(s, 0, 5);
    assert MatchesAt(s, Man, 0);
    assert s[0..5] == "1,000";
    ThousandDigits();
  }

  lemma ThousandManStep(s: string)
    requires s == "1,000만원"
    ensures ConvertUnit(s, Man, 10_000) == "10000000원"
  {
    ThousandManMatch(s);
    TenMillionProduct("1000");
    ConvertUnitRewritesLeftmost(s, Man, 10_000, 0, s[0..6], "1000", "10000000");
    ThousandManTail(s);
    assert s[..0] == [];
  }

  /** `"1,000만원"` becomes `"10000000원"`: the unit is folded into the number
      and the following `원` is kept. */
  lemma ThousandManExample(s: string)
    requires s == "1,000만원"
    ensures NormalizeKoreanNumber(s) == "10000000원"
  {
    ConvertUnitNoUnit(s, Jo, 1_000_000_000_000);
    ConvertUnitNoUnit(s, Eok, 100_000_000);
    ThousandManStep(s);
    var c := "10000000원";
    assert ',' !in c;
    OnlyManConverts(s, c);
  }

  /** A text that only the 만 step changes normalises to that step's result,
      when the result has no commas left. */
  lemma OnlyManConverts(s: string, c: string)
    requires ConvertUnit(s, Jo, 1_000_000_000_000) == s
    requires ConvertUnit(s, Eok, 100_000_000) == s
    requires ConvertUnit(s, Man, 10_000) == c && ',' !in c
    ensures NormalizeKoreanNumber(s) == c
  {
  }

  // ---------------------------------------------------------------------
  // Comma splitting and word normalisation
  // ---------------------------------------------------------------------

  /** The stripped pieces that are not empty, in order. */
  function StrippedPieces(parts: seq<string>): (r: seq<string>)
    ensures |r| <= |parts|
    ensures forall k | 0 <= k < |r| :: r[k] != "" && Trimmed(r[k])
  {
    if parts == [] then []
    else
      var t := Strip(parts[0]);
      (if t == "" then [] else [t]) + StrippedPieces(parts[1..])
  }

  predicate CommaFree(xs: seq<string>) {
    forall k | 0 <= k < |xs| :: ',' !in xs[k]
  }

  lemma CommaFreeAppend(x: seq<string>, y: seq<string>)
    requires CommaFree(x) && CommaFree(y)
    ensures CommaFree(x + y)
  {
    forall k | 0 <= k < |x + y| ensures ',' !in (x + y)[k] {
      if k >= |x| { assert (x + y)[k] == y[k - |x|]; }
    }
  }

  /** Stripping adds no characters, so comma-free parts give comma-free pieces. */
  lemma {:induction false} StrippedPiecesNoComma(parts: seq<string>)
    requires forall k | 0 <= k < |parts| :: ',' !in parts[k]
    ensures forall k | 0 <= k < |StrippedPieces(parts)| :: ',' !in StrippedPieces(parts)[k]
  {
    if parts != [] {
      var t := Strip(parts[0]);
      var tl := parts[1..];
      assert CommaFree(tl) by {
        assert forall k | 0 <= k < |tl| :: tl[k] == parts[k + 1];
      }
      StrippedPiecesNoComma(tl);
      assert ',' !in t by {
        assert ',' !in parts[0];
        StripSubset(parts[0], ',');
      }
      var h: seq<string> := if t == "" then [] else [t];
      CommaFreeAppend(h, StrippedPieces(tl));
    }
  }

  /** `split_by_comma(word)`: the non-blank comma-separated pieces, stripped;
      the word itself when there are none. */
  function SplitByComma(word: string): (r: seq<string>)
    ensures r != []
    ensures r == [word] || forall k | 0 <= k < |r| :: r[k] != "" && Trimmed(r[k]) && ',' !in r[k]
  {
    var pieces := StrippedPieces(SplitOn(word, ','));
    StrippedPiecesNoComma(SplitOn(word, ','));
    if pieces == [] then [word] else pieces
  }

  lemma {:induction false} SplitOnNoSeparator(s: string, c: char)
    requires c !in s
    ensures SplitOn(s, c) == [s]
  {
    if s != [] {
      SplitOnNoSeparator(s[1..], c);
      assert [s[0]] + s[1..] == s;
    }
  }

  /** A word without commas is kept whole, only stripped, unless it is blank. */
  lemma SplitByCommaNoComma(word: string)
    requires ',' !in word && Strip(word) != ""
    ensures SplitByComma(word) == [Strip(word)]
  {
    SplitOnNoSeparator(word, ',');
    assert SplitOn(word, ',')[1..] == [];
  }

  lemma {:induction false} SplitOnPair(a: string, b: string, c: char)
    requires c !in a && c !in b
    decreases |a|
    ensures SplitOn(a + [c] + b, c) == [a, b]
  {
    if a == [] {
      SplitOnNoSeparator(b, c);
      assert a + [c] + b == [c] + b;
      assert ([c] + b)[1..] == b;
    } else {
      var s := a + [c] + b;
      assert s[0] == a[0] && s[1..] == a[1..] + [c] + b;
      var rest := SplitOn(s[1..], c);
      assert rest == [a[1..], b] by {
        SplitOnPair(a[1..], b, c);
      }
      assert SplitOn(s, c) == [[s[0]] + rest[0]] + rest[1..];
      assert [a[0]] + a[1..] == a;
    }
  }

  /** Two non-blank, trimmed, comma-free halves joined by a comma are split
      back into exactly those halves. */
  lemma SplitByCommaPair(a: string, b: string)
    requires a != "" && b != "" && Trimmed(a) && Trimmed(b)
    requires ',' !in a && ',' !in b
    ensures SplitByComma(a + [','] + b) == [a, b]
  {
    SplitOnPair(a, b, ',');
    StripIdentity(a);
    StripIdentity(b);
    assert StrippedPieces([b]) == [b] by {
      assert [b][1..] == [];
    }
    assert StrippedPieces([a, b]) == [a] + StrippedPieces([b]) by {
      assert [a, b][1..] == [b];
    }
  }

  /** `"안녕,하세요"` is split into its two halves. */
  lemma SplitByCommaExample(w: string)
    requires w == "안녕,하세요"
    ensures SplitByComma(w) == ["안녕", "하세요"]
  {
    var a, b := "안녕", "하세요";
    assert w == a + [','] + b;
    SplitByCommaPair(a, b);
  }

  lemma StripKept(s: string)
    requires AllKept(s) && NoUpper(s)
    ensures AllKept(Strip(s)) && NoUpper(Strip(s))
  {
    var a := StripSlice(s);
    var t := Strip(s);
    assert forall i | 0 <= i < |t| :: t[i] == s[a + i];
  }

  lemma LowerKept(s: string)
    requires AllKept(s)
    ensures AllKept(Lower(s))
  {
  }

  /** `normalize_word(word)`: empty for meaningless tokens; otherwise number
      units folded, characters outside `[\w\s가-힣]` dropped, whitespace runs
      collapsed, lower-cased and stripped. */
  function NormalizeWord(word: string): (r: string)
    ensures IsMeaningless(word) ==> r == ""
  {
    if IsMeaningless(word) then "" else Tidy(NormalizeKoreanNumber(word))
  }

  /** A normalised word is tidy: only `[\w\s가-힣]` characters, no comma,
      no upper-case letter, single plain spaces and no outer whitespace. */
  lemma NormalizeWordShape(word: string)
    ensures var r := NormalizeWord(word);
            AllKept(r) && ',' !in r && NoUpper(r) && Clean(r)
  {
    if !IsMeaningless(word) {
      TidyShape(NormalizeKoreanNumber(word));
    }
  }

  /** The character-level tail of `normalize_word`: keep `[\w\s가-힣]`,
      collapse whitespace runs, lower-case, strip. */
  function Tidy(s: string): string {
    Strip(Lower(CollapseSpaces(KeepWordSpaceHangul(s))))
  }

  lemma TidyShape(s: string)
    ensures var r := Tidy(s);
            AllKept(r) && ',' !in r && NoUpper(r) && Clean(r)
  {
    var kept := KeepWordSpaceHangul(s);
    var collapsed := CollapseSpaces(kept);
    CollapseKept(kept);
    LowerKept(collapsed);
    LowerPlain(collapsed);
    StripKept(Lower(collapsed));
    StripClean(Lower(collapsed));
    assert !IsKept(',');
  }

  /** `Tidy` does nothing to text that is already tidy. */
  lemma TidyIdentity(s: string)
    requires AllKept(s) && NoUpper(s) && Clean(s)
    ensures Tidy(s) == s
  {
    assert KeepWordSpaceHangul(s) == s;
    CollapseIdentity(s);
    LowerIdentity(s);
    StripIdentity(s);
  }

  /** A trimmed token of three or more characters, without upper-case
      letters or URL characters, is kept. */
  lemma LongPlainWordKept(w: string)
    requires |w| > 2 && Trimmed(w) && NoUpper(w)
    requires forall i | 0 <= i < |w| :: !IsUrlHead(w[i])
    ensures !IsMeaningless(w)
  {
    MeaninglessPlain(w);
  }

  lemma ThousandManKept(w: string)
    requires w == "1,000만원"
    ensures !IsMeaningless(w)
  {
    assert Trimmed(w) && NoUpper(w);
    assert forall i | 0 <= i < |w| :: !IsUrlHead(w[i]);
    LongPlainWordKept(w);
  }

  lemma TenMillionWonTidy(k: string)
    requires k == "10000000원"
    ensures Tidy(k) == k
  {
    assert forall i | 0 <= i < |k| :: IsDigit(k[i]) || IsHangulSyllable(k[i]);
    assert Clean(k);
    TidyIdentity(k);
  }

  /** `"1,000만원"` normalises to `"10000000원"`. */
  lemma NormalizeWordExample(w: string)
    requires w == "1,000만원"
    ensures NormalizeWord(w) == "10000000원"
  {
    ThousandManKept(w);
    ThousandManExample(w);
    TenMillionWonTidy(NormalizeKoreanNumber(w));
  }

  lemma BracketedOneKept(w: string)
    requires w == "(1)"
    ensures !IsMeaningless(w)
  {
    assert Trimmed(w) && NoUpper(w);
    assert forall i | 0 <= i < |w| :: !IsUrlHead(w[i]);
    LongPlainWordKept(w);
  }

  lemma BracketedOneNumber(w: string)
    requires w == "(1)"
    ensures NormalizeKoreanNumber(w) == w
  {
    ConvertUnitNoUnit(w, Jo, 1_000_000_000_000);
    ConvertUnitNoUnit(w, Eok, 100_000_000);
    ConvertUnitNoUnit(w, Man, 10_000);
  }

  /** When the kept characters already form tidy text, `Tidy` only filters. */
  lemma TidyFilterOnly(s: string)
    requires NoUpper(KeepWordSpaceHangul(s)) && Clean(KeepWordSpaceHangul(s))
    ensures Tidy(s) == KeepWordSpaceHangul(s)
  {
    var k := KeepWordSpaceHangul(s);
    CollapseIdentity(k);
    LowerIdentity(k);
    StripIdentity(k);
  }

  /** A kept character between two dropped ones is all that survives. */
  lemma KeepMiddle(a: char, b: char, c: char)
    requires !IsKept(a) && IsKept(b) && !IsKept(c)
    ensures KeepWordSpaceHangul([a, b, c]) == [b]
  {
    assert [a, b, c] == [a] + [b, c];
    assert [b, c] == [b] + [c];
    assert [c] == [c] + [];
    KeepCons(a, [b, c]);
    KeepCons(b, [c]);
    KeepCons(c, []);
  }

  lemma BracketedOneKeep(w: string)
    requires w == "(1)"
    ensures KeepWordSpaceHangul(w) == "1"
  {
    assert !IsKept(w[0]) && IsKept(w[1]) && !IsKept(w[2]);
    assert w == [w[0], w[1], w[2]];
    KeepMiddle(w[0], w[1], w[2]);
  }

  lemma BracketedOneTidy(w: string)
    requires w == "(1)"
    ensures Tidy(w) == "1"
  {
    BracketedOneKeep(w);
    var k := KeepWordSpaceHangul(w);
    assert NoUpper(k) && Clean(k);
    TidyFilterOnly(w);
  }

  /** `"(1)"` has no unit and no comma and is kept, but loses its brackets. */
  lemma BracketedOne(w: string)
    requires w == "(1)"
    ensures NormalizeWord(w) == "1"
  {
    BracketedOneKept(w);
    BracketedOneNumber(w);
    BracketedOneTidy(w);
  }

  /** Normalising twice is not the same as normalising once: punctuation
      removal can turn a kept token into a short number that is then dropped. */
  lemma NormalizeWordNotIdempotent(w: string)
    requires w == "(1)"
    ensures NormalizeWord(w) == "1"
    ensures NormalizeWord(NormalizeWord(w)) == ""
  {
    BracketedOne(w);
    OneDropped(NormalizeWord(w));
  }

  lemma OneDropped(t: string)
    requires t == "1"
    ensures NormalizeWord(t) == ""
  {
    assert |t| == 1 && IsDigit(t[0]);
    ShortNumberDropped(t);
  }

  lemma ShortNumberDropped(t: string)
    requires 0 < |t| <= 2 && AllDigits(t)
    ensures NormalizeWord(t) == ""
  {
    assert Trimmed(t);
    StripIdentity(t);
  }

  // ---------------------------------------------------------------------
  // Word records of a selection
  // ---------------------------------------------------------------------

  /** A word as the PDF text extractor reports it. */
  datatype PdfWord = PdfWord(box: BBox, text: string)

  /** An entry of `selected_word_info`. */
  datatype WordInfo = WordInfo(text: string, normalized: string, box: BBox, page: nat)

  /** `int(y)` truncates toward zero. */
  function TruncReal(y: real): int {
    if y >= 0.0 then y.Floor else -((-y).Floor)
  }

  /** The sort key `(int(y0), x0)`. */
  function WordKey(w: PdfWord): (real, real) {
    (TruncReal(w.box.y0) as real, w.box.x0)
  }

  /** The records for the comma pieces of one word: only pieces whose
      normal form `norm` gives is non-empty, each with the word's box. The
      viewer passes `NormalizeWord` as `norm`. */
  function PieceInfos(w: PdfWord, pieces: seq<string>, page: nat, norm: string -> string): (r: seq<WordInfo>)
    ensures |r| <= |pieces|
    ensures forall k | 0 <= k < |r| ::
      && r[k].normalized != "" && r[k].normalized == norm(r[k].text)
      && r[k].text in pieces && r[k].box == w.box && r[k].page == page
  {
    if pieces == [] then []
    else
      var n := norm(pieces[0]);
      var rest := PieceInfos(w, pieces[1..], page, norm);
      if n == "" then rest else [WordInfo(pieces[0], n, w.box, page)] + rest
  }

  /** A piece is recorded exactly when its normal form is non-empty. */
  lemma {:induction false} PieceInfosComplete(w: PdfWord, pieces: seq<string>, page: nat, norm: string -> string, x: string)
    requires x in pieces && norm(x) != ""
    decreases |pieces|
    ensures WordInfo(x, norm(x), w.box, page) in PieceInfos(w, pieces, page, norm)
  {
    if pieces[0] != x {
      PieceInfosComplete(w, pieces[1..], page, norm, x);
    }
  }

  /** The comma pieces of a word's text. */
  function Pieces(w: PdfWord): (r: seq<string>)
    ensures r != []
  {
    SplitByComma(w.text)
  }

  /** The record comes from word `w`: it carries the word's box and one of
      its pieces. */
  predicate From(i: WordInfo, w: PdfWord, split: PdfWord -> seq<string>) {
    i.box == w.box && i.text in split(w)
  }

  /** The loop over the (already sorted) words of a selection, for a given
      splitter and normaliser. */
  function WordInfos(words: seq<PdfWord>, page: nat, split: PdfWord -> seq<string>, norm: string -> string): (r: seq<WordInfo>)
    ensures forall k | 0 <= k < |r| ::
      && r[k].normalized != "" && r[k].normalized == norm(r[k].text) && r[k].page == page
      && exists w | w in words :: From(r[k], w, split)
  {
    if words == [] then []
    else
      var head := PieceInfos(words[0], split(words[0]), page, norm);
      var tail := WordInfos(words[1..], page, split, norm);
      assert forall w | w in words[1..] :: w in words;
      assert forall k | 0 <= k < |head| :: From(head[k], words[0], split);
      assert words[0] in words;
      head + tail
  }

  /** `extract_text_with_word_info` once the selected words are known: sort
      by `(int(y0), x0)`, then build the records. */
  function ExtractWords(selected: seq<PdfWord>, page: nat): (r: seq<WordInfo>)
    ensures forall k | 0 <= k < |r| ::
      && r[k].normalized != "" && r[k].normalized == NormalizeWord(r[k].text) && r[k].page == page
      && exists w | w in selected :: From(r[k], w, Pieces)
  {
    var sorted := Sorting.SortByKey(selected, WordKey);
    assert forall w | w in sorted :: w in selected by {
      forall w | w in sorted ensures w in selected {
        assert w in multiset(sorted);
      }
    }
    WordInfos(sorted, page, Pieces, NormalizeWord)
  }

  function Normalized(infos: seq<WordInfo>): (ws: seq<string>)
    ensures |ws| == |infos|
    ensures forall k | 0 <= k < |ws| :: ws[k] == infos[k].normalized
  {
    seq(|infos|, k requires 0 <= k < |infos| => infos[k].normalized)
  }

  // ---------------------------------------------------------------------
  // From aligner records to highlights
  // ---------------------------------------------------------------------

  /** A word highlight `(bbox, color, word)`. */
  datatype Mark = Mark(box: BBox, color: Rgba, word: string)

  const DeleteColor: Rgba := Rgba(255, 0, 0, 100)
  const InsertColor: Rgba := Rgba(0, 255, 0, 100)
  const ReplaceColor: Rgba := Rgba(255, 165, 0, 100)

  /** The highlights of one viewer, per page. */
  type PageMarks = map<nat, seq<Mark>>

  /** The record's left index, if it has one, is a valid word position. */
  predicate Fits(e: Aligner.Edit, nLeft: nat, nRight: nat) {
    (!e.Insert? ==> e.left < nLeft) && (!e.Delete? ==> e.right < nRight)
  }

  function ColorOf(e: Aligner.Edit): Rgba {
    match e
    case Delete(_) => DeleteColor
    case Insert(_) => InsertColor
    case Replace(_, _) => ReplaceColor
  }

  /** The left-viewer highlight of one record, if it has one. */
  function LeftMark(e: Aligner.Edit, left: seq<WordInfo>): (r: Option<(nat, Mark)>)
    requires !e.Insert? ==> e.left < |left|
    ensures r.Some? <==> !e.Insert?
    ensures r.Some? ==> r.value.0 == left[e.left].page && r.value.1.box == left[e.left].box
  {
    if e.Insert? then None
    else Some((left[e.left].page, Mark(left[e.left].box, ColorOf(e), left[e.left].text)))
  }

  /** The right-viewer highlight of one record, if it has one. */
  function RightMark(e: Aligner.Edit, right: seq<WordInfo>): (r: Option<(nat, Mark)>)
    requires !e.Delete? ==> e.right < |right|
    ensures r.Some? <==> !e.Delete?
    ensures r.Some? ==> r.value.0 == right[e.right].page && r.value.1.box == right[e.right].box
  {
    if e.Delete? then None
    else Some((right[e.right].page, Mark(right[e.right].box, ColorOf(e), right[e.right].text)))
  }

  /** `add_word_highlight` for an optional highlight. */
  function Add(hl: PageMarks, m: Option<(nat, Mark)>): (r: PageMarks)
    ensures hl.Keys <= r.Keys
  {
    if m.None? then hl else AppendAt(hl, m.value.0, m.value.1)
  }

  function Get(m: PageMarks, p: nat): seq<Mark> {
    if p in m then m[p] else []
  }

  /** The highlights that land on page `p`. */
  function OnPage(m: Option<(nat, Mark)>, p: nat): seq<Mark> {
    if m.Some? && m.value.0 == p then [m.value.1] else []
  }

  /** Adding one highlight grows exactly its own page's list, at the end. */
  lemma GetAdd(hl: PageMarks, m: Option<(nat, Mark)>, p: nat)
    ensures Get(Add(hl, m), p) == Get(hl, p) + OnPage(m, p)
  {
  }

  /** The highlights the loop over `differences` adds to the two viewers. */
  function Dispatch(d: seq<Aligner.Edit>, left: seq<WordInfo>, right: seq<WordInfo>,
                    hlLeft: PageMarks, hlRight: PageMarks): (r: (PageMarks, PageMarks))
    requires forall k | 0 <= k < |d| :: Fits(d[k], |left|, |right|)
    ensures hlLeft.Keys <= r.0.Keys && hlRight.Keys <= r.1.Keys
    decreases |d|
  {
    if d == [] then (hlLeft, hlRight)
    else
      assert Fits(d[0], |left|, |right|);
      Dispatch(d[1..], left, right, Add(hlLeft, LeftMark(d[0], left)), Add(hlRight, RightMark(d[0], right)))
  }

  /** Reference: the left-viewer highlights the records produce on page `p`, in order. */
  function LeftMarksOn(d: seq<Aligner.Edit>, left: seq<WordInfo>, nRight: nat, p: nat): seq<Mark>
    requires forall k | 0 <= k < |d| :: Fits(d[k], |left|, nRight)
  {
    if d == [] then []
    else
      assert Fits(d[0], |left|, nRight);
      OnPage(LeftMark(d[0], left), p) + LeftMarksOn(d[1..], left, nRight, p)
  }

  /** Reference: the right-viewer highlights the records produce on page `p`, in order. */
  function RightMarksOn(d: seq<Aligner.Edit>, nLeft: nat, right: seq<WordInfo>, p: nat): seq<Mark>
    requires forall k | 0 <= k < |d| :: Fits(d[k], nLeft, |right|)
  {
    if d == [] then []
    else
      assert Fits(d[0], nLeft, |right|);
      OnPage(RightMark(d[0], right), p) + RightMarksOn(d[1..], nLeft, right, p)
  }

  /** Each page's left list grows by exactly the marks of the records on that
      page, in record order. */
  lemma {:induction false} DispatchLeftPerPage(d: seq<Aligner.Edit>, left: seq<WordInfo>, right: seq<WordInfo>,
                                               hlLeft: PageMarks, hlRight: PageMarks, p: nat)
    requires forall k | 0 <= k < |d| :: Fits(d[k], |left|, |right|)
    decreases |d|
    ensures Get(Dispatch(d, left, right, hlLeft, hlRight).0, p) == Get(hlLeft, p) + LeftMarksOn(d, left, |right|, p)
  {
    if d != [] {
      assert Fits(d[0], |left|, |right|);
      var l := Add(hlLeft, LeftMark(d[0], left));
      var rr := Add(hlRight, RightMark(d[0], right));
      var x := Get(l, p);
      var m, t := OnPage(LeftMark(d[0], left), p), LeftMarksOn(d[1..], left, |right|, p);
      var whole := Get(Dispatch(d, left, right, hlLeft, hlRight).0, p);
      assert whole == x + t by {
        assert Dispatch(d, left, right, hlLeft, hlRight) == Dispatch(d[1..], left, right, l, rr);
        DispatchLeftPerPage(d[1..], left, right, l, rr, p);
      }
      assert x == Get(hlLeft, p) + m by {
        GetAdd(hlLeft, LeftMark(d[0], left), p);
      }
      assert LeftMarksOn(d, left, |right|, p) == m + t;
      AppendRegroup(whole, x, t, Get(hlLeft, p), m, LeftMarksOn(d, left, |right|, p));
    }
  }

  /** Each page's right list grows by exactly the marks of the records on
      that page, in record order. */
  lemma {:induction false} DispatchRightPerPage(d: seq<Aligner.Edit>, left: seq<WordInfo>, right: seq<WordInfo>,
                                                hlLeft: PageMarks, hlRight: PageMarks, p: nat)
    requires forall k | 0 <= k < |d| :: Fits(d[k], |left|, |right|)
    decreases |d|
    ensures Get(Dispatch(d, left, right, hlLeft, hlRight).1, p) == Get(hlRight, p) + RightMarksOn(d, |left|, right, p)
  {
    if d != [] {
      assert Fits(d[0], |left|, |right|);
      var l := Add(hlLeft, LeftMark(d[0], left));
      var rr := Add(hlRight, RightMark(d[0], right));
      var x := Get(rr, p);
      var m, t := OnPage(RightMark(d[0], right), p), RightMarksOn(d[1..], |left|, right, p);
      var whole := Get(Dispatch(d, left, right, hlLeft, hlRight).1, p);
      assert whole == x + t by {
        assert Dispatch(d, left, right, hlLeft, hlRight) == Dispatch(d[1..], left, right, l, rr);
        DispatchRightPerPage(d[1..], left, right, l, rr, p);
      }
      assert x == Get(hlRight, p) + m by {
        GetAdd(hlRight, RightMark(d[0], right), p);
      }
      assert RightMarksOn(d, |left|, right, p) == m + t;
      AppendRegroup(whole, x, t, Get(hlRight, p), m, RightMarksOn(d, |left|, right, p));
    }
  }

  /** A page no record touches keeps its highlights. */
  lemma {:induction false} LeftMarksOffPage(d: seq<Aligner.Edit>, left: seq<WordInfo>, nRight: nat, p: nat)
    requires forall k | 0 <= k < |d| :: Fits(d[k], |left|, nRight)
    requires forall k | 0 <= k < |left| :: left[k].page != p
    decreases |d|
    ensures LeftMarksOn(d, left, nRight, p) == []
  {
    if d != [] {
      LeftMarksOffPage(d[1..], left, nRight, p);
    }
  }

  // ---------------------------------------------------------------------
  // The compare-region highlight
  // ---------------------------------------------------------------------

  /** The pale blue of the compare-region highlight. */
  const AreaColor: Rgba := Rgba(0, 120, 255, 30)

  /** The word a compare-region highlight carries. */
  const AreaWord := "compare-region"

  function AreaMark(b: BBox): Mark {
    Mark(b, AreaColor, AreaWord)
  }

  /** A viewer's highlights: `word_highlights` by page, and the list
      `selection_area_highlights` of the compare-region entries among them. */
  datatype Viewer = Viewer(marks: PageMarks, areas: seq<(nat, Mark)>)

  /** The smallest rectangle holding both rectangles. */
  function Union(a: BBox, b: BBox): BBox {
    BBox(if a.x0 <= b.x0 then a.x0 else b.x0, if a.y0 <= b.y0 then a.y0 else b.y0,
         if a.x1 <= b.x1 then b.x1 else a.x1, if a.y1 <= b.y1 then b.y1 else a.y1)
  }

  /** `b` lies within `outer`. */
  predicate Inside(b: BBox, outer: BBox) {
    outer.x0 <= b.x0 && outer.y0 <= b.y0 && b.x1 <= outer.x1 && b.y1 <= outer.y1
  }

  /** One word of `highlight_compare_region`'s loop: the rectangle of page
      `p` in `page_bbox_map` grows to hold `b`, or the page is added after
      the pages seen so far. */
  function Widen(r: seq<(nat, BBox)>, p: nat, b: BBox): seq<(nat, BBox)> {
    if r == [] then [(p, b)]
    else if r[0].0 == p then [(p, Union(r[0].1, b))] + r[1..]
    else [r[0]] + Widen(r[1..], p, b)
  }

  /** `page_bbox_map` after the loop over `ws`, in insertion order. */
  function Region(ws: seq<WordInfo>): seq<(nat, BBox)> {
    if ws == [] then []
    else Widen(Region(ws[..|ws| - 1]), ws[|ws| - 1].page, ws[|ws| - 1].box)
  }

  /** A page seen for the first time is added at the end. */
  lemma {:induction false} WidenNew(r: seq<(nat, BBox)>, p: nat, b: BBox)
    requires forall k | 0 <= k < |r| :: r[k].0 != p
    ensures Widen(r, p, b) == r + [(p, b)]
  {
    if r != [] {
      WidenNew(r[1..], p, b);
    }
  }

  /** A page seen before has its rectangle grown in place. */
  lemma {:induction false} WidenFound(r: seq<(nat, BBox)>, p: nat, b: BBox, k0: nat)
    requires k0 < |r| && r[k0].0 == p
    requires forall k | 0 <= k < k0 :: r[k].0 != p
    ensures Widen(r, p, b) == r[k0 := (p, Union(r[k0].1, b))]
  {
    if k0 > 0 {
      WidenFound(r[1..], p, b, k0 - 1);
    }
  }

  /** No page is listed twice. */
  predicate Keyed(r: seq<(nat, BBox)>) {
    forall a, b | 0 <= a < b < |r| :: r[a].0 != r[b].0
  }

  /** Every word's rectangle lies within the rectangle listed for its page. */
  predicate Covers(r: seq<(nat, BBox)>, ws: seq<WordInfo>) {
    forall i | 0 <= i < |ws| :: exists k | 0 <= k < |r| :: r[k].0 == ws[i].page && Inside(ws[i].box, r[k].1)
  }

  /** Every edge of a listed rectangle is the same edge of a word on its page. */
  predicate Tight(r: seq<(nat, BBox)>, ws: seq<WordInfo>) {
    forall k | 0 <= k < |r| ::
      && (exists i | 0 <= i < |ws| :: ws[i].page == r[k].0 && ws[i].box.x0 == r[k].1.x0)
      && (exists i | 0 <= i < |ws| :: ws[i].page == r[k].0 && ws[i].box.y0 == r[k].1.y0)
      && (exists i | 0 <= i < |ws| :: ws[i].page == r[k].0 && ws[i].box.x1 == r[k].1.x1)
      && (exists i | 0 <= i < |ws| :: ws[i].page == r[k].0 && ws[i].box.y1 == r[k].1.y1)
  }

  /** Where the page of a new word stands in the map so far. */
  lemma WidenCases(r: seq<(nat, BBox)>, p: nat, b: BBox) returns (found: bool, k0: nat)
    requires Keyed(r)
    ensures found ==> k0 < |r| && r[k0].0 == p && Widen(r, p, b) == r[k0 := (p, Union(r[k0].1, b))]
    ensures !found ==> (forall k | 0 <= k < |r| :: r[k].0 != p) && Widen(r, p, b) == r + [(p, b)]
  {
    if k: nat :| k < |r| && r[k].0 == p {
      found, k0 := true, k;
      WidenFound(r, p, b, k0);
    } else {
      found, k0 := false, 0;
      WidenNew(r, p, b);
    }
  }

  lemma {:induction false} RegionKeyed(ws: seq<WordInfo>)
    ensures Keyed(Region(ws))
  {
    if ws != [] {
      var init := ws[..|ws| - 1];
      RegionKeyed(init);
      var found, k0 := WidenCases(Region(init), ws[|ws| - 1].page, ws[|ws| - 1].box);
    }
  }

  lemma {:induction false} RegionCovers(ws: seq<WordInfo>)
    ensures Covers(Region(ws), ws)
  {
    if ws != [] {
      var init := ws[..|ws| - 1];
      var w := ws[|ws| - 1];
      var r := Region(init);
      RegionCovers(init);
      RegionKeyed(init);
      var found, k0 := WidenCases(r, w.page, w.box);
      var r' := Region(ws);
      forall i | 0 <= i < |ws|
        ensures exists k | 0 <= k < |r'| :: r'[k].0 == ws[i].page && Inside(ws[i].box, r'[k].1)
      {
        if i == |ws| - 1 {
          var k := if found then k0 else |r|;
          assert r'[k].0 == w.page && Inside(w.box, r'[k].1);
        } else {
          assert ws[i] == init[i];
          var k :| 0 <= k < |r| && r[k].0 == init[i].page && Inside(init[i].box, r[k].1);
          assert r'[k].0 == ws[i].page && Inside(ws[i].box, r'[k].1);
        }
      }
    }
  }

  lemma {:induction false} RegionTight(ws: seq<WordInfo>)
    ensures Tight(Region(ws), ws)
  {
    if ws != [] {
      var init := ws[..|ws| - 1];
      var n := |ws| - 1;
      var w := ws[n];
      var r := Region(init);
      RegionTight(init);
      RegionKeyed(init);
      var found, k0 := WidenCases(r, w.page, w.box);
      var r' := Region(ws);
      forall k | 0 <= k < |r'|
        ensures exists i | 0 <= i < |ws| :: ws[i].page == r'[k].0 && ws[i].box.x0 == r'[k].1.x0
        ensures exists i | 0 <= i < |ws| :: ws[i].page == r'[k].0 && ws[i].box.y0 == r'[k].1.y0
        ensures exists i | 0 <= i < |ws| :: ws[i].page == r'[k].0 && ws[i].box.x1 == r'[k].1.x1
        ensures exists i | 0 <= i < |ws| :: ws[i].page == r'[k].0 && ws[i].box.y1 == r'[k].1.y1
      {
        if k < |r| && (!found || k != k0) {
          assert r'[k] == r[k];
          TightFrom(init, ws, r[k]);
        } else if k == |r| {
          assert ws[n].page == r'[k].0 && ws[n].box == r'[k].1;
        } else {
          assert r'[k] == (w.page, Union(r[k].1, w.box));
          TightFrom(init, ws, r[k]);
          assert ws[n].page == r'[k].0;
        }
      }
    }
  }

  /** The witnesses for an entry of the map before the last word are still
      witnesses once that word is added. */
  lemma TightFrom(init: seq<WordInfo>, ws: seq<WordInfo>, e: (nat, BBox))
    requires ws != [] && init == ws[..|ws| - 1]
    requires exists i | 0 <= i < |init| :: init[i].page == e.0 && init[i].box.x0 == e.1.x0
    requires exists i | 0 <= i < |init| :: init[i].page == e.0 && init[i].box.y0 == e.1.y0
    requires exists i | 0 <= i < |init| :: init[i].page == e.0 && init[i].box.x1 == e.1.x1
    requires exists i | 0 <= i < |init| :: init[i].page == e.0 && init[i].box.y1 == e.1.y1
    ensures exists i | 0 <= i < |ws| :: ws[i].page == e.0 && ws[i].box.x0 == e.1.x0
    ensures exists i | 0 <= i < |ws| :: ws[i].page == e.0 && ws[i].box.y0 == e.1.y0
    ensures exists i | 0 <= i < |ws| :: ws[i].page == e.0 && ws[i].box.x1 == e.1.x1
    ensures exists i | 0 <= i < |ws| :: ws[i].page == e.0 && ws[i].box.y1 == e.1.y1
  {
    var a :| 0 <= a < |init| && init[a].page == e.0 && init[a].box.x0 == e.1.x0;
    var b :| 0 <= b < |init| && init[b].page == e.0 && init[b].box.y0 == e.1.y0;
    var c :| 0 <= c < |init| && init[c].page == e.0 && init[c].box.x1 == e.1.x1;
    var d :| 0 <= d < |init| && init[d].page == e.0 && init[d].box.y1 == e.1.y1;
    assert ws[a] == init[a] && ws[b] == init[b] && ws[c] == init[c] && ws[d] == init[d];
  }

  /** `page_bbox_map` lists each page of the words once, with the smallest
      rectangle that holds all of that page's words. */
  lemma RegionSpec(ws: seq<WordInfo>)
    ensures Keyed(Region(ws)) && Covers(Region(ws), ws) && Tight(Region(ws), ws)
  {
    RegionKeyed(ws);
    RegionCovers(ws);
    RegionTight(ws);
  }

  /** `xs` without the entries equal to `m`. */
  function Without(xs: seq<Mark>, m: Mark): (r: seq<Mark>)
    ensures forall x :: x in r <==> x in xs && x != m
  {
    if xs == [] then []
    else (if xs[0] == m then [] else [xs[0]]) + Without(xs[1..], m)
  }

  /** The loop of `clear_selection_area_highlights` over `areas`. */
  function Scrub(marks: PageMarks, areas: seq<(nat, Mark)>): PageMarks {
    if areas == [] then marks
    else
      var (p, m) := areas[0];
      Scrub(if p in marks then marks[p := Without(marks[p], m)] else marks, areas[1..])
  }

  /** A page keeps exactly the entries that are not listed for it. */
  lemma {:induction false} ScrubMembers(marks: PageMarks, areas: seq<(nat, Mark)>, p: nat, x: Mark)
    ensures x in Get(Scrub(marks, areas), p) <==> x in Get(marks, p) && (p, x) !in areas
  {
    if areas != [] {
      var (q, m) := areas[0];
      var next := if q in marks then marks[q := Without(marks[q], m)] else marks;
      ScrubMembers(next, areas[1..], p, x);
      assert areas == [areas[0]] + areas[1..];
    }
  }

  /** `clear_selection_area_highlights`. */
  function ClearAreas(v: Viewer): Viewer {
    Viewer(Scrub(v.marks, v.areas), [])
  }

  /** `add_selection_area_highlight` for the pages of `r`, in order. */
  function AddAreas(v: Viewer, r: seq<(nat, BBox)>): Viewer
    decreases |r|
  {
    if r == [] then v
    else
      var (p, b) := r[0];
      AddAreas(Viewer(AppendAt(v.marks, p, AreaMark(b)), v.areas + [(p, AreaMark(b))]), r[1..])
  }

  /** The entries `add_selection_area_highlight` records for `r`. */
  function AreaEntries(r: seq<(nat, BBox)>): (es: seq<(nat, Mark)>)
    ensures |es| == |r|
    ensures forall k | 0 <= k < |r| :: es[k] == (r[k].0, AreaMark(r[k].1))
  {
    seq(|r|, k requires 0 <= k < |r| => (r[k].0, AreaMark(r[k].1)))
  }

  /** Adding the compare regions records them in order. */
  lemma {:induction false} AddAreasRecords(v: Viewer, r: seq<(nat, BBox)>)
    ensures AddAreas(v, r).areas == v.areas + AreaEntries(r)
    decreases |r|
  {
    if r != [] {
      var (q, b) := r[0];
      var next := Viewer(AppendAt(v.marks, q, AreaMark(b)), v.areas + [(q, AreaMark(b))]);
      AddAreasRecords(next, r[1..]);
      assert AreaEntries(r) == [(q, AreaMark(b))] + AreaEntries(r[1..]);
    }
  }

  /** Adding the compare regions adds each to its own page's highlights. */
  lemma {:induction false} AddAreasMembers(v: Viewer, r: seq<(nat, BBox)>, p: nat, x: Mark)
    ensures x in Get(AddAreas(v, r).marks, p) <==> x in Get(v.marks, p) || (p, x) in AreaEntries(r)
    decreases |r|
  {
    if r != [] {
      var (q, b) := r[0];
      var next := Viewer(AppendAt(v.marks, q, AreaMark(b)), v.areas + [(q, AreaMark(b))]);
      assert AddAreas(v, r) == AddAreas(next, r[1..]);
      AddAreasMembers(next, r[1..], p, x);
      assert x in Get(next.marks, p) <==> x in Get(v.marks, p) || (p == q && x == AreaMark(b));
      assert (p, x) in AreaEntries(r) <==> (p, x) == (q, AreaMark(b)) || (p, x) in AreaEntries(r[1..]) by {
        assert AreaEntries(r) == [(q, AreaMark(b))] + AreaEntries(r[1..]);
      }
    }
  }

  /** `highlight_compare_region` after the old regions are cleared. */
  function ShowRegion(v: Viewer, ws: seq<WordInfo>): Viewer {
    AddAreas(ClearAreas(v), Region(ws))
  }

  /** After a comparison's regions are shown, the viewer records one region
      per page of the selected words, each the smallest rectangle holding
      that page's words; a page shows its earlier highlights except the
      earlier regions, plus its new region. */
  lemma ShowRegionSpec(v: Viewer, ws: seq<WordInfo>, p: nat, x: Mark)
    ensures var s := ShowRegion(v, ws);
      && s.areas == AreaEntries(Region(ws))
      && Keyed(Region(ws)) && Covers(Region(ws), ws) && Tight(Region(ws), ws)
      && (x in Get(s.marks, p) <==> (x in Get(v.marks, p) && (p, x) !in v.areas) || (p, x) in s.areas)
  {
    RegionSpec(ws);
    AddAreasRecords(ClearAreas(v), Region(ws));
    AddAreasMembers(ClearAreas(v), Region(ws), p, x);
    ScrubMembers(v.marks, v.areas, p, x);
    assert [] + AreaEntries(Region(ws)) == AreaEntries(Region(ws));
  }

  /** The comparison button: warn unless both sides hold selected words;
      otherwise replace the compare regions, align the normalised words and
      highlight the differences. */
  method CompareSelections(left: seq<WordInfo>, right: seq<WordInfo>, vl: Viewer, vr: Viewer)
    returns (warned: bool, d: seq<Aligner.Edit>, nl: Viewer, nr: Viewer)
    ensures warned <==> left == [] || right == []
    ensures warned ==> d == [] && nl == vl && nr == vr
    ensures !warned ==> d == Aligner.Walk(Normalized(left), Normalized(right), 0, 0, 5)
    ensures forall k | 0 <= k < |d| :: Fits(d[k], |left|, |right|)
    ensures !warned ==>
      var sl, sr := ShowRegion(vl, left), ShowRegion(vr, right);
      && nl.areas == sl.areas && nr.areas == sr.areas
      && (nl.marks, nr.marks) == Dispatch(d, left, right, sl.marks, sr.marks)
  {
    if left == [] || right == [] {
      return true, [], vl, vr;
    }
    warned := false;
    var sl, sr := ShowRegion(vl, left), ShowRegion(vr, right);
    d := Aligner.CompareWithResync(Normalized(left), Normalized(right), 5);
    forall k | 0 <= k < |d| ensures Fits(d[k], |left|, |right|) {
      FitsFromOrdered(d, k, |left|, |right|);
    }
    var r := Dispatch(d, left, right, sl.marks, sr.marks);
    nl, nr := Viewer(r.0, sl.areas), Viewer(r.1, sr.areas);
  }

  /** Every record's left index is among the left indices of the list. */
  lemma {:induction false} LeftIndexListed(d: seq<Aligner.Edit>, k: nat)
    requires k < |d|
    decreases k
    ensures !d[k].Insert? ==> d[k].left in Aligner.LeftIndices(d)
  {
    if k > 0 {
      LeftIndexListed(d[1..], k - 1);
    }
  }

  /** Every record's right index is among the right indices of the list. */
  lemma {:induction false} RightIndexListed(d: seq<Aligner.Edit>, k: nat)
    requires k < |d|
    decreases k
    ensures !d[k].Delete? ==> d[k].right in Aligner.RightIndices(d)
  {
    if k > 0 {
      RightIndexListed(d[1..], k - 1);
    }
  }

  /** Every index an ordered record list mentions is in range. */
  lemma FitsFromOrdered(d: seq<Aligner.Edit>, k: nat, nLeft: nat, nRight: nat)
    requires Aligner.Ordered(d, 0, nLeft, 0, nRight)
    requires k < |d|
    ensures Fits(d[k], nLeft, nRight)
  {
    LeftIndexListed(d, k);
    RightIndexListed(d, k);
  }
}
