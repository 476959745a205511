/** The plain viewer of `pdf_text_compare_gui.py`: the two selected texts are
    normalised, split into words, and compared position by position, a
    missing word standing in as `[없음]`. */
module GuiViewer {
  import opened Basics
  import opened Text
  import opened WordViews

  /** The placeholder shown for a position past the end of a side. */
  const Missing := "[없음]"

  /** Word `i` of `ws`, or the placeholder past its end. */
  function Padded(ws: seq<string>, i: nat): string {
    if i < |ws| then ws[i] else Missing
  }

  /** Word `i` of `ws`, or nothing past its end. */
  function WordAt(ws: seq<string>, i: nat): Option<string> {
    if i < |ws| then Some(ws[i]) else None
  }

  /** One reported position: its index and the two (padded) words. */
  datatype Mismatch = Mismatch(pos: nat, left: string, right: string)

  /** Positions are strictly increasing and below `n`. */
  predicate Ascending(r: seq<Mismatch>, n: nat) {
    && (forall k | 0 <= k < |r| :: r[k].pos < n)
    && (forall a, b | 0 <= a < b < |r| :: r[a].pos < r[b].pos)
  }

  /** The reported positions below `n`, as written: a position is reported
      when its padded words differ. */
  function PaddedUpTo(wl: seq<string>, wr: seq<string>, n: nat): (r: seq<Mismatch>)
    ensures |r| <= n && Ascending(r, n)
  {
    if n == 0 then []
    else
      var p := n - 1;
      PaddedUpTo(wl, wr, p) + (if Padded(wl, p) != Padded(wr, p) then [Mismatch(p, Padded(wl, p), Padded(wr, p))] else [])
  }

  /** The word comparison of `compare_texts` as written. */
  function PaddedMismatches(wl: seq<string>, wr: seq<string>): seq<Mismatch> {
    PaddedUpTo(wl, wr, Max(|wl|, |wr|))
  }

  /** A reported position, as written, is exactly one below the longer
      length whose padded words differ. */
  lemma {:induction false} PaddedUpToMembers(wl: seq<string>, wr: seq<string>, n: nat, m: Mismatch)
    ensures m in PaddedUpTo(wl, wr, n) <==>
      m.pos < n && m.left == Padded(wl, m.pos) && m.right == Padded(wr, m.pos) && m.left != m.right
  {
    if n > 0 {
      PaddedUpToMembers(wl, wr, n - 1, m);
    }
  }

  /** A word that equals the placeholder hides a missing word: one side
      holding just `[없음]` and the other nothing are reported equal as
      written, while the intended comparison reports position 0. */
  lemma PlaceholderHidesWord()
    ensures PaddedMismatches([Missing], []) == []
    ensures Mismatches([Missing], []) == [Mismatch(0, Missing, Missing)]
  {
    assert Padded([Missing], 0) == Padded([], 0);
    assert WordAt([Missing], 0) != WordAt([], 0);
  }

  /** The reported positions below `n`, as intended: a position is reported
      when one side has a word there that the other does not have. */
  function MismatchesUpTo(wl: seq<string>, wr: seq<string>, n: nat): (r: seq<Mismatch>)
    ensures |r| <= n && Ascending(r, n)
  {
    if n == 0 then []
    else
      var p := n - 1;
      MismatchesUpTo(wl, wr, p) + (if WordAt(wl, p) != WordAt(wr, p) then [Mismatch(p, Padded(wl, p), Padded(wr, p))] else [])
  }

  /** The word comparison, deciding on the words themselves and using the
      placeholder only for display. */
  function Mismatches(wl: seq<string>, wr: seq<string>): seq<Mismatch> {
    MismatchesUpTo(wl, wr, Max(|wl|, |wr|))
  }

  lemma {:induction false} MismatchesUpToMembers(wl: seq<string>, wr: seq<string>, n: nat, m: Mismatch)
    ensures m in MismatchesUpTo(wl, wr, n) <==>
      m.pos < n && WordAt(wl, m.pos) != WordAt(wr, m.pos) && m.left == Padded(wl, m.pos) && m.right == Padded(wr, m.pos)
  {
    if n > 0 {
      MismatchesUpToMembers(wl, wr, n - 1, m);
    }
  }

  /** Nothing is reported exactly when the two word lists are equal. */
  lemma MismatchesEmptyIff(wl: seq<string>, wr: seq<string>)
    ensures Mismatches(wl, wr) == [] <==> wl == wr
  {
    var n := Max(|wl|, |wr|);
    if wl != wr {
      var p: nat;
      if |wl| != |wr| {
        p := if |wl| < |wr| then |wl| else |wr|;
      } else {
        p :| 0 <= p < |wl| && wl[p] != wr[p];
      }
      var m := Mismatch(p, Padded(wl, p), Padded(wr, p));
      MismatchesUpToMembers(wl, wr, n, m);
    } else if Mismatches(wl, wr) != [] {
      var m := Mismatches(wl, wr)[0];
      MismatchesUpToMembers(wl, wr, n, m);
      assert false;
    }
  }

  /** The intended comparison reports every position the one as written
      reports, and they agree unless a side holds a word equal to the
      placeholder. */
  lemma MismatchesAgree(wl: seq<string>, wr: seq<string>, m: Mismatch)
    requires Missing !in wl && Missing !in wr
    ensures m in Mismatches(wl, wr) <==> m in PaddedMismatches(wl, wr)
  {
    var n := Max(|wl|, |wr|);
    MismatchesUpToMembers(wl, wr, n, m);
    PaddedUpToMembers(wl, wr, n, m);
    if m.pos < n {
      assert m.pos < |wl| ==> wl[m.pos] in wl;
      assert m.pos < |wr| ==> wr[m.pos] in wr;
    }
  }

  /** Nothing is reported, as written, exactly when the padded words agree
      at every position below the longer length. */
  lemma PaddedEmptyIff(wl: seq<string>, wr: seq<string>)
    ensures PaddedMismatches(wl, wr) == [] <==>
      forall p | 0 <= p < Max(|wl|, |wr|) :: Padded(wl, p) == Padded(wr, p)
  {
    var n := Max(|wl|, |wr|);
    if PaddedMismatches(wl, wr) != [] {
      var m := PaddedMismatches(wl, wr)[0];
      PaddedUpToMembers(wl, wr, n, m);
    }
    if exists p | 0 <= p < n :: Padded(wl, p) != Padded(wr, p) {
      var p :| 0 <= p < n && Padded(wl, p) != Padded(wr, p);
      PaddedUpToMembers(wl, wr, n, Mismatch(p, Padded(wl, p), Padded(wr, p)));
    }
  }

  /** What pressing "compare" shows. */
  datatype Report = Warned | Differences(found: seq<Mismatch>)

  /** The word comparison under a reading: padded words as written, the
      words themselves as intended. */
  function Differ(wl: seq<string>, wr: seq<string>, reading: Reading): seq<Mismatch> {
    if reading.AsWritten? then PaddedMismatches(wl, wr) else Mismatches(wl, wr)
  }

  /** `compare_texts`: warn when a selected text is empty, otherwise compare
      the normalised words position by position. */
  function CompareTexts(tl: string, tr: string, reading: Reading): (r: Report)
    ensures r.Warned? <==> tl == [] || tr == []
  {
    if tl == [] || tr == [] then Warned
    else Differences(Differ(Words(tl), Words(tr), reading))
  }

  /** As written, two non-empty selections are reported identical exactly
      when their normalised words agree position by position once the
      shorter side is padded with the placeholder. */
  lemma CompareTextsSame(tl: string, tr: string)
    requires tl != [] && tr != []
    ensures var wl, wr := Words(tl), Words(tr);
      CompareTexts(tl, tr, AsWritten) == Differences([]) <==>
        forall p | 0 <= p < Max(|wl|, |wr|) :: Padded(wl, p) == Padded(wr, p)
  {
    PaddedEmptyIff(Words(tl), Words(tr));
  }

  /** As written, when no word equals the placeholder, two non-empty
      selections are reported identical exactly when they have the same
      normalised words. */
  lemma CompareTextsSameWords(tl: string, tr: string)
    requires tl != [] && tr != []
    requires Missing !in Words(tl) && Missing !in Words(tr)
    ensures CompareTexts(tl, tr, AsWritten) == Differences([]) <==> Words(tl) == Words(tr)
  {
    var wl, wr := Words(tl), Words(tr);
    MismatchesEmptyIff(wl, wr);
    if PaddedMismatches(wl, wr) != [] {
      var m := PaddedMismatches(wl, wr)[0];
      MismatchesAgree(wl, wr, m);
    }
    if Mismatches(wl, wr) != [] {
      var m := Mismatches(wl, wr)[0];
      MismatchesAgree(wl, wr, m);
    }
  }

  /** As intended, two non-empty selections are reported identical exactly
      when they have the same normalised words. */
  lemma CompareTextsIntendedSame(tl: string, tr: string)
    requires tl != [] && tr != []
    ensures CompareTexts(tl, tr, Intended) == Differences([]) <==> Words(tl) == Words(tr)
  {
    MismatchesEmptyIff(Words(tl), Words(tr));
  }
}
