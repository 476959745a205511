/** Character classes and the handful of Python `str` operations that every
    comparator in the repository is built from (`strip`, `split`, `lower`,
    `' '.join`, `re.sub(r'\s+', ' ', …)`, character-class filters).

    The alphabet is ASCII plus Hangul: `isdigit`/`\d` are the ASCII digits,
    `lower` folds ASCII letters only, and `isalnum`/`\w` are ASCII letters and
    digits plus Hangul syllables and compatibility jamo.  Whitespace is the
    complete set that Python's `str.isspace` (and hence `\s`, `strip()` and
    `split()`) recognises. */
module Text {

  // ---------------------------------------------------------------------
  // Character classes
  // ---------------------------------------------------------------------

  /** Python's `str.isspace`, which is also what `\s`, `strip()` and `split()` use. */
  predicate IsSpace(c: char) {
    || c == ' ' || c == '\t' || c == '\n' || c == '\r'
    || c == '\U{000B}' || c == '\U{000C}'
    || ('\U{001C}' <= c <= '\U{001F}')
    || c == '\U{0085}' || c == '\U{00A0}' || c == '\U{1680}'
    || ('\U{2000}' <= c <= '\U{200A}')
    || c == '\U{2028}' || c == '\U{2029}' || c == '\U{202F}'
    || c == '\U{205F}' || c == '\U{3000}'
  }

  predicate IsDigit(c: char) { '0' <= c <= '9' }
  predicate IsAsciiUpper(c: char) { 'A' <= c <= 'Z' }
  predicate IsAsciiLower(c: char) { 'a' <= c <= 'z' }
  predicate IsAsciiLetter(c: char) { IsAsciiUpper(c) || IsAsciiLower(c) }

  /** The syllable block 가–힣. */
  predicate IsHangulSyllable(c: char) { '가' <= c <= '힣' }
  /** Compatibility jamo consonants ㄱ–ㅎ. */
  predicate IsJamoConsonant(c: char) { 'ㄱ' <= c <= 'ㅎ' }
  /** Compatibility jamo vowels ㅏ–ㅣ. */
  predicate IsJamoVowel(c: char) { 'ㅏ' <= c <= 'ㅣ' }

  /** `is_korean` of pdf_text_compare_posid.py. */
  predicate IsKorean(c: char) { IsHangulSyllable(c) || IsJamoConsonant(c) || IsJamoVowel(c) }

  /** `str.isalnum` on the modelled alphabet. */
  predicate IsAlnum(c: char) { IsDigit(c) || IsAsciiLetter(c) || IsKorean(c) }

  /** The regular-expression class `\w`. */
  predicate IsWordChar(c: char) { IsAlnum(c) || c == '_' }

  /** The characters that survive `re.sub(r'[^\w\s가-힣]', '', …)`. */
  predicate IsKept(c: char) { IsWordChar(c) || IsSpace(c) || IsHangulSyllable(c) }

  /** `c.lower()` for one character. */
  function LowerChar(c: char): (r: char)
    ensures !IsAsciiUpper(r)
    ensures IsSpace(r) <==> IsSpace(c)
    ensures IsKept(r) <==> IsKept(c)
    ensures IsWordChar(r) <==> IsWordChar(c)
    ensures IsDigit(r) <==> IsDigit(c)
    ensures IsAsciiUpper(c) ==> IsAsciiLower(r)
    ensures !IsAsciiUpper(c) ==> r == c
  {
    if IsAsciiUpper(c) then (c as int + 32) as char else c
  }

  // ---------------------------------------------------------------------
  // Predicates over strings
  // ---------------------------------------------------------------------

  predicate NoSpace(s: string) { forall i | 0 <= i < |s| :: !IsSpace(s[i]) }

  /** A token as `split()` returns it: non-empty and whitespace-free. */
  predicate IsWord(w: string) { |w| > 0 && NoSpace(w) }

  predicate AllWords(ws: seq<string>) { forall k | 0 <= k < |ws| :: IsWord(ws[k]) }

  predicate AllWordChars(w: string) { forall i | 0 <= i < |w| :: IsWordChar(w[i]) }

  predicate AllKept(s: string) { forall i | 0 <= i < |s| :: IsKept(s[i]) }

  predicate NoUpper(s: string) { forall i | 0 <= i < |s| :: !IsAsciiUpper(s[i]) }

  /** The only whitespace character present is the plain space. */
  predicate OnlyPlainSpaces(s: string) { forall i | 0 <= i < |s| :: IsSpace(s[i]) ==> s[i] == ' ' }

  predicate NoDoubleSpace(s: string) { forall i | 0 <= i < |s| - 1 :: !(s[i] == ' ' && s[i + 1] == ' ') }

  /** No leading or trailing whitespace. */
  predicate Trimmed(s: string) { |s| == 0 || (!IsSpace(s[0]) && !IsSpace(s[|s| - 1])) }

  /** What `re.sub(r'\s+', ' ', s).strip()` produces: words separated by single spaces. */
  predicate Clean(s: string) { OnlyPlainSpaces(s) && NoDoubleSpace(s) && Trimmed(s) }

  predicate OccursAt(s: string, sub: string, k: nat) {
    k + |sub| <= |s| && s[k..k + |sub|] == sub
  }

  /** Python's `sub in s`. */
  predicate Contains(s: string, sub: string) {
    exists k | 0 <= k <= |s| :: OccursAt(s, sub, k)
  }

  predicate EndsWith(s: string, suffix: string) {
    |suffix| <= |s| && s[|s| - |suffix|..] == suffix
  }

  // ---------------------------------------------------------------------
  // Character maps and filters
  // ---------------------------------------------------------------------

  /** `s.lower()`. */
  function Lower(s: string): (r: string)
    ensures |r| == |s|
    ensures forall i | 0 <= i < |s| :: r[i] == LowerChar(s[i])
    ensures NoUpper(r)
  {
    seq(|s|, i requires 0 <= i < |s| => LowerChar(s[i]))
  }

  /** Keeps the characters satisfying `keep`, in order. */
  function Filter(keep: char -> bool, s: string): (r: string)
    ensures |r| <= |s|
    ensures forall i | 0 <= i < |r| :: keep(r[i])
    ensures (forall i | 0 <= i < |s| :: keep(s[i])) ==> r == s
    ensures forall i | 0 <= i < |r| :: r[i] in s
  {
    if s == [] then []
    else if keep(s[0]) then [s[0]] + Filter(keep, s[1..])
    else Filter(keep, s[1..])
  }

  /** `re.sub(r'[^\w\s가-힣]', '', s)`. */
  function KeepWordSpaceHangul(s: string): (r: string)
    ensures AllKept(r)
  {
    Filter(IsKept, s)
  }

  /** `s.replace(c, '')`. */
  function RemoveChar(s: string, c: char): (r: string)
    ensures c !in r
    ensures c !in s ==> r == s
  {
    if s == [] then []
    else (if s[0] == c then [] else [s[0]]) + RemoveChar(s[1..], c)
  }

  /** `re.sub(r'\s+', '', s)`. */
  function RemoveSpaces(s: string): (r: string)
    ensures NoSpace(r)
  {
    Filter(x => !IsSpace(x), s)
  }

  // ---------------------------------------------------------------------
  // strip and whitespace collapsing
  // ---------------------------------------------------------------------

  /** `s.lstrip()`: drops leading whitespace. */
  function StripLeft(s: string): (r: string)
    ensures |r| <= |s| && r == s[|s| - |r|..]
    ensures r == [] || !IsSpace(r[0])
    ensures forall i | 0 <= i < |s| - |r| :: IsSpace(s[i])
    decreases |s|
  {
    if s != [] && IsSpace(s[0]) then StripLeft(s[1..]) else s
  }

  /** `s.rstrip()`: drops trailing whitespace. */
  function StripRight(s: string): (r: string)
    ensures |r| <= |s| && r == s[..|r|]
    ensures r == [] || !IsSpace(r[|r| - 1])
    ensures forall i | |r| <= i < |s| :: IsSpace(s[i])
    decreases |s|
  {
    if s != [] && IsSpace(s[|s| - 1]) then StripRight(s[..|s| - 1]) else s
  }

  /** `s.strip()`. */
  function Strip(s: string): (r: string)
    ensures Trimmed(r)
    ensures |r| <= |s|
  {
    StripRight(StripLeft(s))
  }

  /** `re.sub(r'\s+', ' ', s)`: every maximal whitespace run becomes one space. */
  function CollapseSpaces(s: string): (r: string)
    ensures OnlyPlainSpaces(r) && NoDoubleSpace(r)
    ensures |r| == 0 <==> |s| == 0
    ensures |r| > 0 ==> (IsSpace(r[0]) <==> IsSpace(s[0]))
    ensures |r| > 0 ==> (IsSpace(r[|r| - 1]) <==> IsSpace(s[|s| - 1]))
    decreases |s|
  {
    if s == [] then []
    else if IsSpace(s[0]) then
      var rest := StripLeft(s);
      [' '] + CollapseSpaces(rest)
    else [s[0]] + CollapseSpaces(s[1..])
  }

  // ---------------------------------------------------------------------
  // split and join
  // ---------------------------------------------------------------------

  /** `sep.join(ws)`. */
  function Join(sep: string, ws: seq<string>): string
  {
    if |ws| == 0 then ""
    else if |ws| == 1 then ws[0]
    else ws[0] + sep + Join(sep, ws[1..])
  }

  /** The longest prefix of `s` without whitespace. */
  function TakeWord(s: string): (w: string)
    ensures |w| <= |s| && w == s[..|w|]
    ensures NoSpace(w)
    ensures |w| == |s| || IsSpace(s[|w|])
    ensures |s| > 0 && !IsSpace(s[0]) ==> |w| > 0
  {
    if s == [] || IsSpace(s[0]) then [] else [s[0]] + TakeWord(s[1..])
  }

  /** `s.split()`: the maximal whitespace-free runs of `s`, in order. */
  function Split(s: string): seq<string>
    decreases |s|
  {
    var t := StripLeft(s);
    if t == [] then []
    else
      var w := TakeWord(t);
      [w] + Split(t[|w|..])
  }

  /** `s.split(c)`: the pieces between occurrences of `c` (always at least one). */
  function SplitOn(s: string, c: char): (parts: seq<string>)
    ensures |parts| >= 1
    ensures forall k | 0 <= k < |parts| :: c !in parts[k]
  {
    if s == [] then [""]
    else
      var rest := SplitOn(s[1..], c);
      if s[0] == c then [""] + rest
      else [[s[0]] + rest[0]] + rest[1..]
  }

  /** `s.replace(pat, rep)`: every non-overlapping occurrence, scanning left to right. */
  function ReplaceAll(s: string, pat: string, rep: string): string
    requires |pat| > 0
    decreases |s|
  {
    if |s| < |pat| then s
    else if s[..|pat|] == pat then rep + ReplaceAll(s[|pat|..], pat, rep)
    else [s[0]] + ReplaceAll(s[1..], pat, rep)
  }

  // ---------------------------------------------------------------------
  // Decimal numerals
  // ---------------------------------------------------------------------

  predicate AllDigits(s: string) { forall i | 0 <= i < |s| :: IsDigit(s[i]) }

  function DigitChar(d: nat): (c: char)
    requires d < 10
    ensures IsDigit(c)
  {
    ('0' as int + d) as char
  }

  function DigitValue(c: char): (d: nat)
    requires IsDigit(c)
    ensures d < 10
  {
    c as int - '0' as int
  }

  /** `int(s)` for a non-empty string of ASCII digits. */
  function DecimalValue(s: string): nat
    requires AllDigits(s)
  {
    if s == [] then 0 else DecimalValue(s[..|s| - 1]) * 10 + DigitValue(s[|s| - 1])
  }

  /** `str(n)`. */
  function NatToString(n: nat): (s: string)
    ensures |s| > 0 && AllDigits(s)
    ensures |s| > 1 ==> s[0] != '0'
  {
    if n < 10 then [DigitChar(n)] else NatToString(n / 10) + [DigitChar(n % 10)]
  }

  // ---------------------------------------------------------------------
  // Lemmas
  // ---------------------------------------------------------------------

  /** `int(str(n)) == n`. */
  lemma {:induction false} DecimalRoundTrip(n: nat)
    ensures DecimalValue(NatToString(n)) == n
  {
    if n >= 10 {
      var s := NatToString(n);
      assert s[..|s| - 1] == NatToString(n / 10);
      DecimalRoundTrip(n / 10);
    }
  }

  /** Every kept character stays kept when the string is sliced. */
  lemma CleanSlice(s: string, a: nat, b: nat)
    requires a <= b <= |s|
    requires OnlyPlainSpaces(s) && NoDoubleSpace(s)
    ensures OnlyPlainSpaces(s[a..b]) && NoDoubleSpace(s[a..b])
  {
    var t := s[a..b];
    forall i | 0 <= i < |t| - 1 ensures !(t[i] == ' ' && t[i + 1] == ' ') {
      assert t[i] == s[a + i] && t[i + 1] == s[a + i + 1];
    }
  }

  /** Stripping a string without whitespace runs leaves it clean. */
  lemma StripClean(c: string)
    requires OnlyPlainSpaces(c) && NoDoubleSpace(c)
    ensures Clean(Strip(c))
  {
    var l := StripLeft(c);
    CleanSlice(c, |c| - |l|, |c|);
    var r := StripRight(l);
    CleanSlice(l, 0, |r|);
  }

  /** `re.sub(r'\s+', ' ', s).strip()` is clean. */
  lemma CollapseStripClean(s: string)
    ensures Clean(Strip(CollapseSpaces(s)))
  {
    StripClean(CollapseSpaces(s));
  }

  /** Lower-casing touches no whitespace. */
  lemma LowerPlain(s: string)
    requires OnlyPlainSpaces(s) && NoDoubleSpace(s)
    ensures OnlyPlainSpaces(Lower(s)) && NoDoubleSpace(Lower(s))
  {
    var r := Lower(s);
    forall i | 0 <= i < |s| ensures IsSpace(r[i]) ==> r[i] == ' ' && s[i] == ' ' {
      if IsSpace(r[i]) {
        assert IsSpace(s[i]) && s[i] == ' ';
      }
    }
  }

  /** Collapsing whitespace keeps a string within `[\w\s가-힣]`. */
  lemma {:induction false} CollapseKept(s: string)
    requires AllKept(s)
    ensures AllKept(CollapseSpaces(s))
    decreases |s|
  {
    if s != [] {
      if IsSpace(s[0]) {
        var rest := StripLeft(s);
        assert forall i | 0 <= i < |rest| :: rest[i] == s[|s| - |rest| + i];
        CollapseKept(rest);
        assert IsKept(' ');
      } else {
        assert forall i | 0 <= i < |s| - 1 :: s[1..][i] == s[i + 1];
        CollapseKept(s[1..]);
      }
    }
  }

  /** `Strip` returns a slice of its argument. */
  lemma StripSlice(s: string) returns (a: nat)
    ensures a + |Strip(s)| <= |s| && Strip(s) == s[a..a + |Strip(s)|]
  {
    var l := StripLeft(s);
    a := |s| - |l|;
    assert Strip(s) == l[..|Strip(s)|];
  }

  /** Stripping never introduces a character. */
  lemma StripSubset(s: string, c: char)
    ensures c in Strip(s) ==> c in s
  {
    var a := StripSlice(s);
    if c in Strip(s) {
      var i :| 0 <= i < |Strip(s)| && Strip(s)[i] == c;
      assert s[a + i] == c;
    }
  }

  lemma OccursShift(s: string, pat: string, q: nat)
    requires |s| > 0
    ensures OccursAt(s[1..], pat, q) <==> OccursAt(s, pat, q + 1)
  {
    if q + |pat| <= |s| - 1 {
      assert s[1..][q..q + |pat|] == s[q + 1..q + 1 + |pat|];
    }
  }

  lemma ReplaceAllSkip(s: string, pat: string, rep: string)
    requires |pat| > 0 && |s| >= |pat| && !OccursAt(s, pat, 0)
    ensures ReplaceAll(s, pat, rep) == [s[0]] + ReplaceAll(s[1..], pat, rep)
  {
    assert s[..|pat|] != pat;
  }

  /** `c + (p + rest)` regrouped as `(c + p) + rest`, stated over plain values. */
  lemma ConsRegroup<T>(whole: seq<T>, c: T, tail: seq<T>, p: seq<T>, prefix: seq<T>, rest: seq<T>)
    requires whole == [c] + tail && tail == p + rest && prefix == [c] + p
    ensures whole == prefix + rest
  {
  }

  /** `ReplaceAll` copies the text in front of the first possible occurrence unchanged. */
  lemma {:induction false} ReplaceAllPrefix(s: string, pat: string, rep: string, a: nat)
    requires |pat| > 0 && a + |pat| <= |s|
    requires forall q | 0 <= q < a :: !OccursAt(s, pat, q)
    decreases a
    ensures ReplaceAll(s, pat, rep) == s[..a] + ReplaceAll(s[a..], pat, rep)
  {
    if a == 0 {
      assert s[..0] == [] && s[0..] == s;
    } else {
      var t := s[1..];
      var whole, tail, rest := ReplaceAll(s, pat, rep), ReplaceAll(t, pat, rep), ReplaceAll(s[a..], pat, rep);
      assert whole == [s[0]] + tail by {
        assert !OccursAt(s, pat, 0);
        ReplaceAllSkip(s, pat, rep);
      }
      assert tail == t[..a - 1] + rest by {
        forall q | 0 <= q < a - 1 ensures !OccursAt(t, pat, q) {
          OccursShift(s, pat, q);
        }
        ReplaceAllPrefix(t, pat, rep, a - 1);
        assert t[a - 1..] == s[a..];
      }
      assert s[..a] == [s[0]] + t[..a - 1];
      ConsRegroup(whole, s[0], tail, t[..a - 1], s[..a], rest);
    }
  }

  /** `ReplaceAll` leaves text before the first occurrence alone and rewrites that occurrence. */
  lemma ReplaceAllFirst(s: string, pat: string, rep: string, a: nat)
    requires |pat| > 0 && OccursAt(s, pat, a)
    requires forall q | 0 <= q < a :: !OccursAt(s, pat, q)
    ensures ReplaceAll(s, pat, rep) == s[..a] + rep + ReplaceAll(s[a + |pat|..], pat, rep)
  {
    ReplaceAllAt(s, pat, rep, a);
    ReplaceAllPrefix(s, pat, rep, a);
  }

  /** An occurrence at the front is rewritten and the scan resumes after it. */
  lemma ReplaceAllAt(s: string, pat: string, rep: string, a: nat)
    requires |pat| > 0 && OccursAt(s, pat, a)
    ensures ReplaceAll(s[a..], pat, rep) == rep + ReplaceAll(s[a + |pat|..], pat, rep)
  {
    var u := s[a..];
    assert u[..|pat|] == s[a..a + |pat|];
    assert u[|pat|..] == s[a + |pat|..];
  }


  /** Collapsing does nothing to a string that has no whitespace runs. */
  lemma {:induction false} CollapseIdentity(s: string)
    requires OnlyPlainSpaces(s) && NoDoubleSpace(s)
    ensures CollapseSpaces(s) == s
    decreases |s|
  {
    if s != [] {
      CleanSlice(s, 1, |s|);
      if IsSpace(s[0]) {
        assert |s| == 1 || !IsSpace(s[1]);
        assert StripLeft(s) == s[1..];
      }
      CollapseIdentity(s[1..]);
    }
  }

  lemma StripIdentity(s: string)
    requires Trimmed(s)
    ensures Strip(s) == s
  {
  }

  lemma LowerIdentity(s: string)
    requires NoUpper(s)
    ensures Lower(s) == s
  {
  }

  lemma RemoveCharCons(x: char, s: string, c: char)
    ensures RemoveChar([x] + s, c) == (if x == c then [] else [x]) + RemoveChar(s, c)
  {
    assert ([x] + s)[1..] == s;
  }

  lemma KeepCons(x: char, s: string)
    ensures KeepWordSpaceHangul([x] + s) == (if IsKept(x) then [x] else []) + KeepWordSpaceHangul(s)
  {
    assert ([x] + s)[1..] == s;
  }

  /** Every token `split()` returns is non-empty and whitespace-free. */
  lemma {:induction false} SplitWords(s: string)
    ensures AllWords(Split(s))
    decreases |s|
  {
    var t := StripLeft(s);
    if t != [] {
      var w := TakeWord(t);
      SplitWords(t[|w|..]);
      assert IsWord(w);
      AllWordsCons(w, Split(t[|w|..]));
    }
  }

  lemma AllWordsCons(w: string, ws: seq<string>)
    requires IsWord(w) && AllWords(ws)
    ensures AllWords([w] + ws)
  {
    var r := [w] + ws;
    forall k | 0 <= k < |r| ensures IsWord(r[k]) {
      if k > 0 { assert r[k] == ws[k - 1]; }
    }
  }

  /** The whitespace-free runs of a clean string, re-joined with single spaces,
      give the string back. */
  lemma {:induction false} JoinSplit(s: string)
    requires Clean(s)
    ensures Join(" ", Split(s)) == s
    decreases |s|
  {
    if s != [] {
      var w := TakeWord(s);
      var rest := s[|w|..];
      SplitFirstWord(s);
      if rest == [] {
        assert s == w;
      } else {
        var t := CleanTail(s);
        JoinSplit(t);
        SplitLeadingSpace(t);
        SplitNonEmpty(t);
        assert Split(s) == [w] + Split(t);

      }
    }
  }

  /** A string that does not start with whitespace splits into its first word
      and the split of the rest. */
  lemma SplitFirstWord(s: string)
    requires s != [] && !IsSpace(s[0])
    ensures Split(s) == [TakeWord(s)] + Split(s[|TakeWord(s)|..])
  {
    assert StripLeft(s) == s;
  }

  lemma SplitNonEmpty(s: string)
    requires s != [] && !IsSpace(s[0])
    ensures Split(s) != []
  {
    SplitFirstWord(s);
  }

  /** In a clean string, whatever follows the first word is one space and a
      clean, non-empty remainder. */
  lemma CleanTail(s: string) returns (t: string)
    requires Clean(s) && s != []
    requires |TakeWord(s)| < |s|
    ensures s == TakeWord(s) + " " + t
    ensures Clean(t) && t != [] && !IsSpace(t[0])
  {
    var n := |TakeWord(s)|;
    assert s[n] == ' ';
    assert n != |s| - 1 by { assert !IsSpace(s[|s| - 1]); }
    assert !(s[n] == ' ' && s[n + 1] == ' ');
    t := s[n + 1..];
    CleanSlice(s, n + 1, |s|);
    assert t[|t| - 1] == s[|s| - 1];
    assert t[0] == s[n + 1];
    var w := TakeWord(s);
    assert w == s[..n];
    assert s == s[..n] + [s[n]] + s[n + 1..];
  }

  /** Joining non-empty whitespace-free words with single spaces and splitting
      again gives the words back. */
  lemma {:induction false} SplitJoin(ws: seq<string>)
    requires AllWords(ws)
    ensures Split(Join(" ", ws)) == ws
  {
    if |ws| == 1 {
      SplitSingleWord(ws[0]);
    } else if |ws| > 1 {
      assert AllWords(ws[1..]) by {
        assert forall k | 0 <= k < |ws| - 1 :: ws[1..][k] == ws[k + 1];
      }
      SplitJoin(ws[1..]);
      SplitJoinStep(ws);
    }
  }

  lemma SplitJoinStep(ws: seq<string>)
    requires |ws| > 1 && IsWord(ws[0]) && Split(Join(" ", ws[1..])) == ws[1..]
    ensures Split(Join(" ", ws)) == ws
  {
    var rest := Join(" ", ws[1..]);
    assert Join(" ", ws) == ws[0] + [' '] + rest;
    SplitWordThenSpace(ws[0], ' ', rest);
    ConsSplit(ws);
  }

  lemma ConsSplit<T>(xs: seq<T>)
    requires xs != []
    ensures [xs[0]] + xs[1..] == xs
  {
  }

  lemma {:induction false} TakeWordAll(w: string, rest: string)
    requires NoSpace(w)
    requires rest == [] || IsSpace(rest[0])
    ensures TakeWord(w + rest) == w
    decreases |w|
  {
    if w != [] {
      assert (w + rest)[1..] == w[1..] + rest;
      TakeWordAll(w[1..], rest);
    } else {
      assert w + rest == rest;
    }
  }

  lemma SplitLeadingSpace(s: string)
    ensures Split(" " + s) == Split(s)
  {
    var u := " " + s;
    assert u != [] && IsSpace(u[0]) && u[1..] == s;
    assert StripLeft(u) == StripLeft(s);
  }

  /** Leading whitespace does not change what `split()` returns. */
  lemma SplitSpaceCons(c: char, rest: string)
    requires IsSpace(c)
    ensures Split([c] + rest) == Split(rest)
  {
    StripLeftSpaceCons(c, rest);
    SplitSameStart([c] + rest, rest);
  }

  lemma StripLeftSpaceCons(c: char, rest: string)
    requires IsSpace(c)
    ensures StripLeft([c] + rest) == StripLeft(rest)
  {
    assert ([c] + rest)[1..] == rest;
  }

  lemma SplitSameStart(s: string, u: string)
    requires StripLeft(s) == StripLeft(u)
    ensures Split(s) == Split(u)
  {
  }

  /** A word followed by whitespace is the first token; splitting resumes after it. */
  lemma SplitWordThenSpace(w: string, c: char, rest: string)
    requires IsWord(w) && IsSpace(c)
    ensures Split(w + [c] + rest) == [w] + Split(rest)
  {
    var s := w + [c] + rest;
    assert s == w + ([c] + rest);
    TakeWordAll(w, [c] + rest);
    assert s[0] == w[0];
    SplitFirstWord(s);
    assert s[|w|..] == [c] + rest;
    SplitSpaceCons(c, rest);
  }

  /** A single word splits to itself. */
  lemma SplitSingleWord(w: string)
    requires IsWord(w)
    ensures Split(w) == [w]
  {
    TakeWordAll(w, []);
    assert w + [] == w;
    SplitFirstWord(w);
    assert w[|w|..] == [];
  }

  /** `sep.join(s.split(sep))` is `s`. */
  lemma {:induction false} SplitOnJoin(s: string, c: char)
    ensures Join([c], SplitOn(s, c)) == s
  {
    if s != [] {
      var rest := SplitOn(s[1..], c);
      SplitOnJoin(s[1..], c);
      if s[0] == c {
        assert Join([c], [""] + rest) == "" + [c] + Join([c], rest) by {
          assert ([""] + rest)[1..] == rest;
        }
      } else if |rest| == 1 {
        assert SplitOn(s, c) == [[s[0]] + rest[0]];
      } else {
        var parts := [[s[0]] + rest[0]] + rest[1..];
        assert parts[1..] == rest[1..];
        assert Join([c], rest) == rest[0] + [c] + Join([c], rest[1..]);
      }
    }
  }

  /** Filtering distributes over concatenation. */
  lemma {:induction false} FilterAppend(keep: char -> bool, x: string, y: string)
    ensures Filter(keep, x + y) == Filter(keep, x) + Filter(keep, y)
    decreases |x|
  {
    if x == [] {
      assert x + y == y;
    } else {
      assert (x + y)[1..] == x[1..] + y;
      FilterAppend(keep, x[1..], y);
    }
  }

  /** A character that passes the filter and occurs in the input occurs in the output. */
  lemma {:induction false} FilterMember(keep: char -> bool, s: string, i: nat)
    requires i < |s| && keep(s[i])
    ensures s[i] in Filter(keep, s)
    decreases |s|
  {
    if i > 0 {
      FilterMember(keep, s[1..], i - 1);
    }
  }

  /** Lower-casing works character by character. */
  lemma LowerAppend(x: string, y: string)
    ensures Lower(x + y) == Lower(x) + Lower(y)
  {
  }

  lemma WordNotSpace(c: char)
    requires IsWordChar(c)
    ensures !IsSpace(c)
  {
  }

  /** A run of word characters holds no whitespace. */
  lemma WordsNoSpace(w: string)
    requires AllWordChars(w)
    ensures NoSpace(w)
  {
    forall i | 0 <= i < |w| ensures !IsSpace(w[i]) {
      WordNotSpace(w[i]);
    }
  }
}
