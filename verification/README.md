# Pdf-Compare: a Dafny model of the text-comparison core

Pdf-Compare is a set of desktop viewers for comparing two PDF documents, mostly
Korean insurance documents. Under the Qt widgets sits a small text-comparison
core, and that core is what this project models. It has six parts.

- **The resynchronising word aligner of `pdf_text_compare_posid.py`.**
  - It walks two normalised token lists with two cursors.
  - On a mismatch it tries, in this order: a merge-check (2 to 5 tokens glued into one), a left lookahead, a right lookahead and a joint lookahead.
  - Failing all of those, it records a `replace`.
  - Surrounding it: the token normalisers (`is_meaningless_word`, `normalize_korean_number`, `split_by_comma`, `normalize_word`), the word-extraction loop, and the dispatch from aligner records to coloured highlights.
- **The block matcher of `insurance_compare/text_comparator.py`.**
  - It uses `normalize_text`, `tokenize_words`, `find_best_match` (threshold 0.6, a section bonus of 0.1, the first maximal candidate wins) and the word-level diff.
  - `compare_blocks` uses a "claimed" guard that keeps the sync map injective.
  - It also covers the detail formatter and `get_diff_count`.
- **The block matcher of `PDdiff.py`.**
  - It uses a space-free `normalize_text` that drops roman numerals, and the placeholder test.
  - Blocks are classified `same`, `placeholder` or `modified`.
  - `perform_comparison` has threshold 0.8 and no claimed guard.
- **The section structurer of `insurance_compare/pdf_parser.py`.**
  - It filters headers and footers and sorts the lines.
  - A state machine follows: ◆ opens a major section, ■ opens a minor one and absorbs same-row text, and body text goes to the open section.
  - A flattener turns the sections into tagged blocks.
- **The character pipeline of `InsPdfTxtCompare.py`.** It filters characters, groups them into lines by y, orders each line by x and removes overprinted duplicates. It then expands opcodes into highlights through the idempotent `add_hl`.
- **The opcode-to-highlight expansion of the four word viewers** (`pdf_text_compare_fixed.py`, `_final_v2.py`, `_advanced.py`, `_gui.py`). It covers their text normalisation, sentence grouping and colour mapping.

## How the model is organised

Each module follows one source file:

| module | file | source |
|---|---|---|
| `Basics` | `basics.dfy` | options, boxes, colours, opcodes, and generic list and map folds |
| `Text` | `text.dfy` | the string operations the source borrows from Python, such as `strip`, `split`, `join`, `lower`, `re.sub` classes and `int()` |
| `Sorting` | `sorting.dfy` | a stable insertion sort by key, standing in for `list.sort` and `sorted` |
| `Matching` | `matching.dfy` | the "first strictly greater" best-score scan both matchers use |
| `Aligner`, `Posid` | `aligner.dfy`, `posid.dfy` | `pdf_text_compare_posid.py` |
| `TextComparator`, `BlockCompare` | `text_comparator.dfy`, `compare_blocks.dfy` | `insurance_compare/text_comparator.py` |
| `PdDiff` | `pd_diff.dfy` | `PDdiff.py` |
| `PdfParser` | `parser.dfy` | `insurance_compare/pdf_parser.py` |
| `CharCompare` | `char_compare.dfy` | `InsPdfTxtCompare.py` |
| `WordViews` | `word_diff.dfy` | what the four word viewers share |
| `FixedViewer`, `FinalViewer`, `AdvancedViewer`, `GuiViewer` | `fixed_viewer.dfy`, `final_viewer.dfy`, `advanced_viewer.dfy`, `gui_viewer.dfy` | the four word viewers |

What happens in the original's collaborators is handed to the model as input:

- **PyMuPDF extraction.** Its output becomes input records: words, spans, characters and lines, each with a bounding box and a page. The selection's `intersects` test happens before the model, so the inputs are exactly the items that meet the selection.
- **difflib.**
  - `SequenceMatcher.get_opcodes()` becomes an input list of opcodes. The model assumes only what `get_opcodes` guarantees about index ranges (`Basics.ValidOpcodes`).
  - `ratio` and `Differ.compare` become function parameters.
  - Wherever a proof needs ratio(s, s) = 1 or "ratio 1 only for equal strings", that fact is a hypothesis of that lemma.
- **Character classes.**
  - `\w`, `isalnum`, `isdigit`, `isspace` and `lower` are modelled on ASCII plus Hangul: syllables U+AC00–U+D7A3 and compatibility jamo.
  - Python's whitespace set is modelled in full.
- **Coordinates** are `real` numbers, which the code only compares and truncates.

Two of the viewers contain a bug (see "## Findings"). Their comparisons take a `WordViews.Reading`. `AsWritten` follows the code as it stands, and the members that describe the program end to end use it. `Intended` swaps in the corrected step, and separate lemmas state what the corrected pipeline would show.

## Model

| member | source | states |
|---|---|---|
| Aligner.FirstLeftHit | pdf_text_compare_posid.py:234-242 | the left lookahead finds the smallest k in the window with L[i+k] = R[j]. When it finds none, no k in the window matches |
| Aligner.FirstRightHit | pdf_text_compare_posid.py:248-256 | the right lookahead finds the smallest k with L[i] = R[j+k], or proves that none exists in the window |
| Aligner.FirstGlue | pdf_text_compare_posid.py:194-209 | the merge loop finds the fewest following tokens whose separator-free concatenation equals the other side's token. When it finds none, no count in range works |
| Aligner.JointScanFindsNearest | pdf_text_compare_posid.py:262-273 | the joint double loop returns a common pair at the smallest total distance k1+k2, with ties going to the smaller k1. It returns nothing only when the window has no common pair |
| Aligner.Merge | pdf_text_compare_posid.py:193-231 | a successful merge-check records nothing, consumes at least one token on each side and stays within both lists |
| Aligner.MergeSpec | pdf_text_compare_posid.py:193-231 | the merge-check fires only when the current tokens differ in length. On success the shorter side consumes the fewest (2 to 5) tokens that glue into the other token. It fails exactly when no count works on either side |
| Aligner.Resync | pdf_text_compare_posid.py:233-289 | after an unexplained mismatch at least one record is produced and at least one cursor advances |
| Aligner.Step | pdf_text_compare_posid.py:162-289 | each pass of the loop keeps both cursors in range and strictly increases i + j, so (len(L)-i)+(len(R)-j) decreases |
| Aligner.CompareWithResync | pdf_text_compare_posid.py:142-291 | the loop computes the recursive walk. In its output each side's indices are strictly increasing and in range, so every token is reported at most once and in order |
| Aligner.WalkOrdered | pdf_text_compare_posid.py:162-291 | from any cursor pair, the walk's left indices are strictly increasing in [i, len L) and its right indices strictly increasing in [j, len R) |
| Aligner.DrainLeft | pdf_text_compare_posid.py:168-171 | once the right side is exhausted, the rest of the left side is deleted one index at a time, in order |
| Aligner.DrainRight | pdf_text_compare_posid.py:174-177 | once the left side is exhausted, the rest of the right side is inserted one index at a time, in order |
| Aligner.WalkEqualTails | pdf_text_compare_posid.py:180-183 | equal remaining tails produce no records |
| Aligner.AlignSelf | pdf_text_compare_posid.py:180-183 | comparing a token list with itself returns [] |
| Aligner.WalkEqualRun | pdf_text_compare_posid.py:180-183 | a run of equal tokens is skipped silently: the walk continues as if the cursors started after it |
| Aligner.SilentWalkAgrees | pdf_text_compare_posid.py:180-231 | if the walk reports nothing, both remaining token lists glue to the same string |
| Aligner.MergeShape | pdf_text_compare_posid.py:193-231 | a step after a mismatch that records nothing is a merge of 2 to 5 tokens on the shorter side against one token on the other |
| Aligner.LeftMergeWins | pdf_text_compare_posid.py:193-209 | when the left token is shorter and the fewest left tokens that glue to the right token number k+1, the step consumes them and one right token with no record |
| Aligner.RightMergeWins | pdf_text_compare_posid.py:212-228 | the same with the sides swapped |
| Aligner.SkipLeftWins | pdf_text_compare_posid.py:233-242 | with no merge, the nearest left token equal to the right token wins: the skipped left tokens are deleted and the right cursor stays |
| Aligner.SkipRightWins | pdf_text_compare_posid.py:247-256 | with no merge and no left hit, the nearest right token equal to the left token wins: the skipped right tokens are inserted |
| Aligner.SkipBothWins | pdf_text_compare_posid.py:261-284 | with no merge and no one-sided hit, the nearest joint pair wins: left deletes come first, then right inserts |
| Aligner.ReplaceFallback | pdf_text_compare_posid.py:286-289 | with no merge and no hit anywhere in the window, exactly one replace(i, j) is recorded and both cursors advance |
| Aligner.SingleInsertion | pdf_text_compare_posid.py:174-259 | inserting one word w at position p yields exactly [insert p]. This needs w to differ from L[p] and from the next 5 words, and no merge to fire at p |
| Posid.MeaninglessPlain | pdf_text_compare_posid.py:492-526 | for a trimmed lower-case word with no URL characters, meaningless means exactly: a listed bullet, a lone symbol, or a number of at most two digits |
| Posid.HangulWordMeaningful | pdf_text_compare_posid.py:492-526 | a word of two or more Hangul syllables is never meaningless |
| Posid.LongPlainWordKept | pdf_text_compare_posid.py:492-526 | a trimmed lower-case word longer than two characters, with no URL characters, is kept |
| Posid.NoUrl | pdf_text_compare_posid.py:495-498 | a word with none of the URL fragments' first characters contains no URL fragment |
| Posid.RunLength | pdf_text_compare_posid.py:550-551 | the `[0-9,]+` run at a position is maximal: every character in it is a digit or comma, and the next one is not |
| Posid.SearchUnit | pdf_text_compare_posid.py:550-551 | `re.search` finds the leftmost position where a numeral run is followed by the unit, or proves there is none |
| Posid.NormalizeKoreanNumber | pdf_text_compare_posid.py:532-566 | the result contains no comma |
| Posid.ConvertUnitRewritesLeftmost | pdf_text_compare_posid.py:546-558 | for each unit, the leftmost numeral+unit match becomes the number times the unit. Because `str.replace` is used, later copies of the same text are rewritten too |
| Posid.CommaOnlyNumeralUnchanged | pdf_text_compare_posid.py:552-561 | ",만" has no digits; `int` fails and the text stays unchanged |
| Posid.ConvertUnitNoUnit | pdf_text_compare_posid.py:547 | a text without the unit is unchanged by that unit's pass |
| Posid.ThousandManExample | pdf_text_compare_posid.py:532-566 | "1,000만원" becomes "10000000원" |
| Posid.OnlyManConverts | pdf_text_compare_posid.py:546-566 | when only the 만 pass changes the text, and leaves no comma, the result is that pass's output |
| Posid.SplitByComma | pdf_text_compare_posid.py:569-589 | never returns []. It returns either the word itself, or non-empty stripped pieces without commas |
| Posid.SplitByCommaNoComma | pdf_text_compare_posid.py:569-589 | a word without commas that is not blank becomes its stripped self |
| Posid.SplitByCommaPair | pdf_text_compare_posid.py:569-589 | "a,b" with trimmed, comma-free, non-empty a and b splits into [a, b] |
| Posid.SplitByCommaExample | pdf_text_compare_posid.py:571-573 | "안녕,하세요" splits into ["안녕", "하세요"] |
| Posid.NormalizeWord | pdf_text_compare_posid.py:591-602 | a meaningless word normalises to "" |
| Posid.NormalizeWordShape | pdf_text_compare_posid.py:591-619 | the result contains only `[\w\s가-힣]` characters, no commas and no upper case, with single plain spaces and no outer whitespace |
| Posid.TidyIdentity | pdf_text_compare_posid.py:607-617 | the punctuation, space, case and strip stages leave an already tidy text unchanged |
| Posid.NormalizeWordExample | pdf_text_compare_posid.py:591-619 | "1,000만원" normalises to "10000000원" |
| Posid.ShortNumberDropped | pdf_text_compare_posid.py:522-524 | a numeral of one or two digits normalises to "" |
| Posid.NormalizeWordNotIdempotent | pdf_text_compare_posid.py:600-619 | "(1)" normalises to "1", and "1" normalises to "". The meaningless filter runs before punctuation removal, so normalize_word is not idempotent |
| Posid.PieceInfos | pdf_text_compare_posid.py:661-672 | only pieces with a non-empty normal form are recorded, each with its piece, its normal form, the word's box and the page |
| Posid.PieceInfosComplete | pdf_text_compare_posid.py:661-672 | every piece with a non-empty normal form is recorded |
| Posid.ExtractWords | pdf_text_compare_posid.py:651-672 | after sorting by (int(y0), x0), every record has a non-empty normal form of its own text and the selection's page, and comes from one comma piece of a selected word |
| Posid.LeftMark | pdf_text_compare_posid.py:1117-1149 | a delete or replace record marks its left word's page and box. An insert marks nothing on the left |
| Posid.RightMark | pdf_text_compare_posid.py:1126-1154 | an insert or replace record marks its right word's page and box. A delete marks nothing on the right |
| Posid.GetAdd | pdf_text_compare_posid.py:697-701 | adding a mark extends that page's list and leaves the other pages alone |
| Posid.DispatchLeftPerPage | pdf_text_compare_posid.py:1116-1154 | after the dispatch loop, each page's left highlights are the old ones followed by the marks of the records on that page, in record order |
| Posid.DispatchRightPerPage | pdf_text_compare_posid.py:1116-1154 | the same for the right viewer |
| Posid.LeftMarksOffPage | pdf_text_compare_posid.py:1116-1154 | a page holding none of the left words receives no left marks |
| Posid.WidenCases | pdf_text_compare_posid.py:1056-1067 | a page already in the map has its rectangle widened in place to hold the new box. A new page is added at the end with the box itself |
| Posid.RegionSpec | pdf_text_compare_posid.py:1052-1067 | the region map has one entry per page. Every selected word's box lies inside its page's rectangle, and each of the four edges is reached by some word on that page |
| Posid.ScrubMembers | pdf_text_compare_posid.py:711-721 | after the old regions are cleared, a page keeps exactly the highlights that are not one of its recorded regions |
| Posid.AddAreasRecords | pdf_text_compare_posid.py:703-709 | adding regions records each (page, rectangle, pale blue, "compare-region") entry, in order, after the ones already recorded |
| Posid.AddAreasMembers | pdf_text_compare_posid.py:703-709 | after adding regions, a page's highlights are its old ones plus its new region marks, and nothing else |
| Posid.ShowRegionSpec | pdf_text_compare_posid.py:1045-1079 | after a comparison shows its regions, the viewer records exactly the new regions (one tight rectangle per page of the selected words). A page holds its earlier highlights other than the earlier regions, plus its new region |
| Posid.CompareSelections | pdf_text_compare_posid.py:1026-1154 | warns and changes nothing exactly when either viewer has no selected words. Otherwise it compares the normalised words with lookahead 5, and every record's indices are valid word positions. Each viewer's old compare regions are removed and its new ones shown, and the highlights are then the dispatch of those records |
| Matching.FirstBest | insurance_compare/text_comparator.py:92-98 | the scan returns a candidate with a score above -1. It returns nothing exactly when every score is at most -1 |
| Matching.FirstBestUnique | insurance_compare/text_comparator.py:92-98 | when k is the first index of the maximal score, the scan returns k |
| Sorting.SortByKey | insurance_compare/pdf_parser.py:92 | the result is sorted by key and is a permutation of the input |
| TextComparator.NormalizeTextShape | insurance_compare/text_comparator.py:20-34 | the result contains only `[\w\s가-힣]` characters and plain spaces, has no outer whitespace and no upper case, and is no longer than the input |
| TextComparator.NormalizeTextFixedPoints | insurance_compare/text_comparator.py:20-34 | the texts normalize_text leaves unchanged are exactly the clean, lower-case texts of kept characters |
| TextComparator.NormalizeTextNotIdempotent | insurance_compare/text_comparator.py:30-34 | "a - b" normalises to "a  b", which normalises again to something else: whitespace is collapsed before punctuation is dropped |
| TextComparator.ScanWords | insurance_compare/text_comparator.py:47-66 | the character loop returns exactly the whitespace-split words |
| TextComparator.TokenizeWords | insurance_compare/text_comparator.py:37-66 | tokenize_words returns the tokens of the text |
| TextComparator.TokensRoundTrip | insurance_compare/text_comparator.py:37-66 | every token is non-empty and free of whitespace, and joining the tokens with single spaces gives the collapsed, stripped text |
| TextComparator.Scores | insurance_compare/text_comparator.py:79-91 | one score per candidate: the ratio plus 0.1 when the section types agree (both missing counts as agreeing). It is nothing for a candidate that normalises to empty |
| TextComparator.FindBestMatch | insurance_compare/text_comparator.py:68-103 | a match is a valid candidate index |
| TextComparator.FindBestMatchSpec | insurance_compare/text_comparator.py:14-103 | a match is the first candidate of maximal score, and its score is at least 0.6. There is no match exactly when the target normalises to empty or every score is below 0.6 |
| TextComparator.TaggedMembers | insurance_compare/text_comparator.py:124-125 | the added and deleted lists hold exactly the words of the '+ ' and '- ' lines |
| TextComparator.CompareWordLevelSpec | insurance_compare/text_comparator.py:105-156 | the result is modified exactly when the token lists differ and the differ reports a change. A modified result carries both texts verbatim and exactly the '+ ' and '- ' words |
| TextComparator.SameIffSameTokens | insurance_compare/text_comparator.py:119-156 | with a differ that reports every change, the result is same exactly when the token lists are equal |
| TextComparator.FormatDiffDetailRoundTrip | insurance_compare/text_comparator.py:272-294 | the detail is the bare "changed" marker exactly when the side has no words. Otherwise it is the side's prefix followed by text that splits back into the words |
| TextComparator.DetailListsTokens | insurance_compare/text_comparator.py:105-294 | when the differ only reports words of its inputs, each side's detail names tokens of its own block |
| BlockCompare.CompareBlocksSyncMap | insurance_compare/text_comparator.py:181-195 | the sync map maps exactly the blocks of A that are first to claim their best match, each to that match. It is injective |
| BlockCompare.CompareBlocksDeleted | insurance_compare/text_comparator.py:240-249 | the deleted list holds exactly the blocks of A with no match, each with its own index, in increasing order |
| BlockCompare.CompareBlocksModified | insurance_compare/text_comparator.py:197-238 | the modified list holds exactly the mapped pairs whose word-level comparison is modified, in increasing order of the A index |
| BlockCompare.CompareBlocksAdded | insurance_compare/text_comparator.py:251-262 | the added list holds exactly the blocks of B nothing maps to, in increasing order. Added plus mapped is the size of B |
| BlockCompare.CompareBlocksMarks | insurance_compare/text_comparator.py:207-262 | A carries a red mark per deleted block and a yellow one per modified pair. B carries a yellow mark per modified pair and a green one per added block. Each mark sits on its block's own page with its box unchanged, and there are no other marks |
| BlockCompare.CompareBlocksCount | insurance_compare/text_comparator.py:296-311 | deleted + mapped ≤ len A, modified ≤ mapped, added = len B − mapped, and so total ≤ len A + len B |
| BlockCompare.SelfBest | insurance_compare/text_comparator.py:68-103 | when texts are pairwise distinct and ratio is 1 exactly on equal strings, each block's best match in its own document is itself |
| BlockCompare.SameText | insurance_compare/text_comparator.py:119-121 | a text compared with itself is same |
| BlockCompare.CompareBlocksSelf | insurance_compare/text_comparator.py:158-270 | under the same hypotheses, comparing a document with itself gives the identity sync map and no modified, deleted or added entries |
| PdDiff.NormalizeShape | PDdiff.py:14-23 | the result has only word characters: no whitespace, no punctuation, no upper case. It is never a bare roman numeral |
| PdDiff.RomanNumeralDropped | PDdiff.py:18-19 | a standalone I/V/X run (any case) between whitespace leaves no trace |
| PdDiff.NormalizeIdempotent | PDdiff.py:14-23 | normalising twice equals normalising once |
| PdDiff.IsPlaceholderDiff | PDdiff.py:25-72 | true exactly when A contains a placeholder pattern and the stripped texts differ. So it implies the stripped texts differ |
| PdDiff.AgeTemplateIsPlaceholder | PDdiff.py:32-65 | ("보험기간: ××세", "보험기간: 30세") counts as a placeholder difference, because two adjacent Hangul syllables already match |
| PdDiff.PlaceholderInBIgnored | PDdiff.py:50-70 | a placeholder that only B contains does not count |
| PdDiff.CompareTextBlocks | PDdiff.py:124-140 | same exactly when the raw texts are equal; otherwise placeholder exactly when the placeholder test holds; otherwise modified |
| PdDiff.WhitespaceOnlyIsModified | PDdiff.py:124-140 | texts that differ only in outer whitespace are modified, not placeholder |
| PdDiff.KindDependsOnA | PDdiff.py:60-140 | for two B texts that both differ from A after stripping, the classification is the same: only A's placeholder status matters |
| PdDiff.Extract | PDdiff.py:74-96 | a text entry yields one block when its stripped text is not empty, carrying its page and box, and yields nothing otherwise |
| PdDiff.ExtractPageMembers | PDdiff.py:74-96 | a page's blocks are exactly its non-blank entries |
| PdDiff.FindBestMatchSpec | PDdiff.py:98-122 | a match is the first block of maximal ratio, and its ratio is at least 0.8. There is none exactly when every ratio is below 0.8, in particular for no candidates |
| PdDiff.FirstIndex | PDdiff.py:165 | `list.index` returns the first position holding the block |
| PdDiff.PerformComparisonSync | PDdiff.py:151-167 | blocks are flattened page by page. An A block is a key of the sync map exactly when it has a best match |
| PdDiff.ComparisonReported | PDdiff.py:142-194 | each key maps to the first B index equal to its best match. The marks on both sides are exactly the reported items |
| PdDiff.PerformComparisonMarksA | PDdiff.py:160-185 | A's marks are exactly: yellow for every matched block classified modified, red for every unmatched block, each on its own page with its own box |
| PdDiff.PerformComparisonMarksB | PDdiff.py:172-192 | B's marks are exactly: yellow for the match of every modified A block, and green for every B block no A block maps to |
| PdDiff.FlattenPage | PDdiff.py:151-152 | a page's blocks sit in the flattened list between the blocks of the earlier pages and those of the later ones |
| PdDiff.SyncMapNotInjective | PDdiff.py:158-167 | two equal A blocks against one B block both map to B index 0, so the sync map is not injective |
| PdfParser.KeepLineYields | insurance_compare/pdf_parser.py:67-76 | a raw line survives exactly when its text is not blank and its y0 lies within [85, 750] |
| PdfParser.KeepLinesMembers | insurance_compare/pdf_parser.py:62-88 | the kept lines are exactly the survivors of the page's lines |
| PdfParser.PageLines | insurance_compare/pdf_parser.py:92 | the page's kept lines sorted by (y, x): sorted, and a permutation of the survivors |
| PdfParser.RowEnd | insurance_compare/pdf_parser.py:146-156 | the ■ absorption loop stops at the first line not within 5 of the ■ line's y. Every line it passes is within 5 |
| PdfParser.StructureFlattens | insurance_compare/pdf_parser.py:102-281 | flattening the sections gives each input line's text, box and page exactly once, in input order. ◆ lines become their stripped title, and each ■ line with its absorbed lines becomes one minor-title block |
| PdfParser.StructureEmpty | insurance_compare/pdf_parser.py:102-202 | the structurer returns no sections exactly when there are no lines |
| PdfParser.OpenMajorOrigins | insurance_compare/pdf_parser.py:122-138 | a ◆ line closes the open sections and contributes one major-title block: the text without ◆, stripped |
| PdfParser.OpenMinorOrigins | insurance_compare/pdf_parser.py:141-165 | a ■ line contributes one minor-title block whose text is the description joined from the absorbed same-row lines |
| PdfParser.AddBodyPending | insurance_compare/pdf_parser.py:167-194 | a body line appends exactly one block and leaves the open titles as they were. Under an open ■ section the block is `minor_content` with that section's title; otherwise, under an open ◆ section, it is `major_content` with the ◆ title; otherwise it is `standalone` with no title. The block keeps the line's text, box and page |
| PdfParser.StructureBlocks | insurance_compare/pdf_parser.py:102-281 | flattening a page's sections gives exactly the blocks read off its lines in order. A ◆ line gives a `major_title` block and opens its title. A ■ line gives a `minor_title` block that carries its description and title, and opens the ■ title under the current ◆ title. Any other line gives a content block tagged and titled by the open ■ section, else the open ◆ section, else it is `standalone` |
| PdfParser.PageBlocksOrigins | insurance_compare/pdf_parser.py:229-281 | whatever titles are open, the text, box and page of those blocks are the lines' contributions, so the whole-block statement agrees with `StructureFlattens` |
| PdfParser.ParseMembers | insurance_compare/pdf_parser.py:29-47 | parse keeps exactly the pages that have sections |
| PdfParser.AllTextBlocksFollowDocument | insurance_compare/pdf_parser.py:204-217 | get_all_text_blocks lists the kept lines of every page, page by page, in the order the structurer reads them |
| PdfParser.AllTextBlocksWhole | insurance_compare/pdf_parser.py:204-281 | get_all_text_blocks returns, page after page, exactly the blocks read off each page's lines with no section open. So every block's `section_type` and `section_title` follow from the ◆ and ■ lines before it on its page |
| CharCompare.AdmittedMembers | InsPdfTxtCompare.py:195-205 | a character survives exactly when it is a Hangul syllable, a consonant jamo ㄱ–ㅎ, a digit, an ASCII letter or a space. It is stored lower-cased |
| CharCompare.GroupIsGrouping | InsPdfTxtCompare.py:207-215 | the grouping loop splits the y-sorted characters, in order, into non-empty lines. Inside a line, each character is within 5.0 in y of the previous one; between lines it is not |
| CharCompare.GroupingUnique | InsPdfTxtCompare.py:207-215 | that description determines the lines: any split with these properties is the loop's |
| CharCompare.LineOrderSpec | InsPdfTxtCompare.py:217-221 | each line is ordered by x and its spaces are dropped, and nothing else is |
| CharCompare.DedupSpec | InsPdfTxtCompare.py:220-224 | the kept characters come from the input, and none repeats the previous kept character within 2.5 in x, across line ends too |
| CharCompare.DedupKeeps | InsPdfTxtCompare.py:220-224 | a sequence with no overprint passes unchanged |
| CharCompare.DedupIdempotent | InsPdfTxtCompare.py:220-224 | de-duplicating twice equals de-duplicating once |
| CharCompare.ExtractSpec | InsPdfTxtCompare.py:190-227 | every entry carries the page passed in, is a stored non-space character from the selection, and does not overprint the one before it |
| CharCompare.ExtractNothing | InsPdfTxtCompare.py:187-206 | when nothing passes the filter, the selection yields nothing |
| CharCompare.AddHlSpec | InsPdfTxtCompare.py:368-372 | add_hl records (bbox, color) on the character's page without repeats and adds nothing else |
| CharCompare.AddHlIdempotent | InsPdfTxtCompare.py:368-372 | adding the same highlight twice equals adding it once |
| CharCompare.AddHl | InsPdfTxtCompare.py:368-372 | other pages are untouched, and the highlight is present afterwards |
| CharCompare.RunComparison | InsPdfTxtCompare.py:338-342 | the comparison asks for selections exactly when either side has no characters. Otherwise each viewer's compared area becomes its own pending selection rectangle |
| CharCompare.CompareArea | InsPdfTxtCompare.py:340-342 | the compared area is cleared, then holds exactly the pending selection rectangle on its page, or nothing when no selection is pending |
| CharCompare.RunComparisonSpec | InsPdfTxtCompare.py:336-350 | delete and replace colour P1's characters i1..i2-1. Insert and replace colour P2's characters j1..j2-1. The highlights gain exactly those, without repeats |
| CharCompare.RunComparisonTwice | InsPdfTxtCompare.py:336-350 | comparing the same selections again changes no highlight |
| WordViews.NormalizeLines | pdf_text_compare_final_v2.py:536-541 | the result has single plain spaces and no outer whitespace |
| WordViews.NormalizeLinesIdempotent | pdf_text_compare_advanced.py:526-531 | the result has no line break, and normalising again changes nothing |
| WordViews.NormalizeLinesFixes | pdf_text_compare_gui.py:369-377 | a text that is already clean is unchanged |
| WordViews.NormalizeLinesGlues | pdf_text_compare_final_v2.py:538 | a line break vanishes without a trace, gluing the words on either side |
| WordViews.SentencesSplit | pdf_text_compare_final_v2.py:262-282 | the sentence grouping concatenates back to the selected words. No sentence is empty, and every sentence but the last ends with a word ending in '.' or '。' |
| WordViews.SelectedTextJoin | pdf_text_compare_final_v2.py:277-284 | the selected text is the ' '-join of the selected words in order, regardless of the sentence grouping |
| WordViews.WordsAligned | pdf_text_compare_final_v2.py:284-563 | when the selected words are whitespace-free, normalising and splitting the selected text gives back exactly those words |
| WordViews.Run | pdf_text_compare_fixed.py:528-557 | `range(lo, hi)` as entries of one kind, one per index, in order |
| WordViews.Within | pdf_text_compare_fixed.py:529-558 | the bounds check keeps only entries whose index is below the stored word count |
| WordViews.WithinMembers | pdf_text_compare_fixed.py:529-558 | an entry survives the bounds check exactly when its index is below the limit |
| WordViews.LeftEntriesSpec | pdf_text_compare_fixed.py:526-564 | a left entry exists exactly for an index in a delete range (kind delete) or in a replace range (kind change) |
| WordViews.RightEntriesSpec | pdf_text_compare_fixed.py:526-564 | a right entry exists exactly for an index in an insert range (kind add) or in a replace range (kind change) |
| WordViews.EqualOpsMarkNothing | pdf_text_compare_fixed.py:526-564 | equal opcodes produce no entry on either side |
| WordViews.Locate | pdf_text_compare_fixed.py:531-536 | each entry becomes a highlight with its word, its kind, and the box and page of the word information at its index |
| WordViews.LeftLocated | pdf_text_compare_fixed.py:526-564 | the left highlights are exactly the located delete and change entries at indices below the stored count |
| WordViews.RightLocated | pdf_text_compare_fixed.py:526-564 | the right highlights are exactly the located add and change entries at indices below the stored count |
| WordViews.Say | pdf_text_compare_final_v2.py:582-603 | one message per entry, with its kind and the word at its index |
| WordViews.PaintSpec | pdf_text_compare_fixed.py:279-299 | after painting, a page holds its old marks followed by the marks of the differences on that page, in order |
| WordViews.PaintPages | pdf_text_compare_fixed.py:293-294 | a page has marks afterwards exactly when it had them before or some difference lies on it |
| WordViews.MarksOnColors | pdf_text_compare_fixed.py:289-296 | every new mark is a difference's box and word, coloured by kind: add green, delete red, otherwise the palette's third colour |
| FixedViewer.NormalizeWord | pdf_text_compare_fixed.py:205-215 | the result contains only `[\w\s가-힣]` characters, no upper case and no outer whitespace |
| FixedViewer.NormalizeWordFixedPoints | pdf_text_compare_fixed.py:205-215 | normalize_word leaves a word unchanged exactly when it already has that shape |
| FixedViewer.NormalizeWordIdempotent | pdf_text_compare_fixed.py:205-215 | normalising twice equals normalising once |
| FixedViewer.NormalizeWordNoSpace | pdf_text_compare_fixed.py:205-215 | a word without whitespace normalises to one without whitespace |
| FixedViewer.ExtractMembers | pdf_text_compare_fixed.py:235-248 | a record exists exactly for a selected word whose normal form is non-empty. It carries the word, its normal form, box and page |
| FixedViewer.WordsAligned | pdf_text_compare_fixed.py:251-510 | splitting the selected text gives back exactly the normalised words, so `words_left[i]` is the word of `word_info_left[i]` |
| FixedViewer.CompareLeft | pdf_text_compare_fixed.py:526-564 | a left difference exists exactly for a word of a delete or replace range, with that word's text, box and page and kind delete or change |
| FixedViewer.CompareRight | pdf_text_compare_fixed.py:537-564 | a right difference exists exactly for a word of an insert or replace range, with kind add or change |
| FixedViewer.SilentIffUnmarked | pdf_text_compare_fixed.py:526-564 | the difference list is empty exactly when there are no left marks and every right mark is a change |
| FixedViewer.HighlightAccumulates | pdf_text_compare_fixed.py:289-595 | highlights are appended to the old ones, never cleared, and only when the difference list is not empty |
| FixedViewer.IdenticalMarksNothing | pdf_text_compare_fixed.py:526-564 | all-equal opcodes produce no message and no mark |
| FixedViewer.SelectedTextEmpty | pdf_text_compare_fixed.py:235-251 | the selected text is empty exactly when no selected word has a non-empty normal form |
| FixedViewer.CompareTexts | pdf_text_compare_fixed.py:487-499 | the viewer asks for selections exactly when either selected text is empty. Otherwise it shows the comparison of the two word lists |
| FixedViewer.CompareSelectionsWarns | pdf_text_compare_fixed.py:235-499 | from the raw selected words: the viewer warns exactly when one side has no word that survives normalisation |
| FinalViewer.ExtractSpec | pdf_text_compare_final_v2.py:262-285 | the selected text is the ' '-join of the selected words. When those words are whitespace-free, splitting it gives them back |
| FinalViewer.CompareTexts | pdf_text_compare_final_v2.py:553-555 | the viewer warns exactly when either selected text is empty |
| FinalViewer.DeleteAlwaysSaid | pdf_text_compare_final_v2.py:580-582 | every deleted word gets a message, whether or not it has word information |
| FinalViewer.InsertAlwaysSaid | pdf_text_compare_final_v2.py:590-592 | every inserted word gets a message |
| FinalViewer.CompareLeft | pdf_text_compare_final_v2.py:579-617 | a left highlight exists exactly for a delete or replace index below the number of stored words, with that word's box and page |
| FinalViewer.CompareRight | pdf_text_compare_final_v2.py:590-617 | a right highlight exists exactly for an insert or replace index below the number of stored words |
| FinalViewer.HighlightAccumulates | pdf_text_compare_final_v2.py:312-647 | highlights accumulate across comparisons and use green, red and orange (255, 200, 0, 120) |
| AdvancedViewer.SpanWords | pdf_text_compare_advanced.py:245-262 | a selected span's words are its whitespace-split stripped text, each carrying the span's box and page |
| AdvancedViewer.ExtractSentences | pdf_text_compare_advanced.py:239-285 | the sentences concatenate to the selected words and are non-empty. Every one but the last ends a sentence. The selected text is the ' '-join of the words, and its normalised split gives them back |
| AdvancedViewer.ExpandSpec | pdf_text_compare_advanced.py:566-580 | expansion fails exactly when some replace indexes past the right words (j1 + (i2 - i1) > len R). Otherwise its entries are the left and right entries of the opcodes |
| AdvancedViewer.LongReplaceFails | pdf_text_compare_advanced.py:575-577 | replacing two left words by one right word raises the IndexError |
| AdvancedViewer.ScanFromTarget | pdf_text_compare_advanced.py:625-636 | once the count reaches the target, the loop as written returns the first word of every remaining sentence |
| AdvancedViewer.LaterHolds | pdf_text_compare_advanced.py:625-636 | the sentences after the one holding position t are exactly those after that sentence |
| AdvancedViewer.LookupAsWrittenSpec | pdf_text_compare_advanced.py:622-636 | as written, a lookup at a position inside the words returns that word followed by the first word of every later sentence. Past the end it returns nothing |
| AdvancedViewer.AsWrittenExtends | pdf_text_compare_advanced.py:625-636 | the loop as written returns the intended lookup followed by extra words, and nothing only when the intended lookup finds nothing |
| AdvancedViewer.ExtraHighlight | pdf_text_compare_advanced.py:613-636 | with sentences [a] and [b], index 0 highlights both a and b as written, but only a as intended |
| AdvancedViewer.LookupSpec | pdf_text_compare_advanced.py:613-658 | the corrected lookup returns exactly the word at that position of the flattened sentences, or nothing past the end |
| AdvancedViewer.LocationsExact | pdf_text_compare_advanced.py:613-658 | with the corrected lookup, each difference is located at its own word's box and page |
| AdvancedViewer.PlaceAsWritten | pdf_text_compare_advanced.py:613-658 | as written, one difference is highlighted at its own word and again at the first word of every later sentence, always labelled with its own word and kind |
| AdvancedViewer.LocationsSpread | pdf_text_compare_advanced.py:613-658 | as written, the highlights of a difference list are those echoes, one difference after another in list order |
| AdvancedViewer.RepaintClears | pdf_text_compare_advanced.py:316-338 | highlight_word_differences clears the old highlights. Each page then holds exactly the new marks, coloured green, red or yellow (255, 255, 0, 100) |
| AdvancedViewer.CompareTexts | pdf_text_compare_advanced.py:543-546 | the viewer warns exactly when either selected text is empty |
| AdvancedViewer.CompareWordsSpec | pdf_text_compare_advanced.py:549-605 | the comparison is abandoned exactly when a replace overruns the right words. Otherwise every entry indexes a word, and each side repaints exactly the highlights its lookup finds for its entries |
| AdvancedViewer.CompareSelections | pdf_text_compare_advanced.py:239-658 | end to end from the selected spans, as written: abandoned exactly on an overrun. Otherwise each page's highlights are exactly the marks of the delete/change (left) or add/change (right) words at their own boxes, each echoed at the first word of every later sentence |
| AdvancedViewer.CompareSelectionsIntended | pdf_text_compare_advanced.py:239-658 | with the corrected lookup: abandoned exactly on an overrun. Otherwise each page's highlights are exactly the marks of the differing words located at their own boxes |
| AdvancedViewer.SpansCompareWords | pdf_text_compare_advanced.py:533-560 | when both selections hold words, comparing the selected spans is comparing their sentence groupings and word texts |
| GuiViewer.PaddedUpTo | pdf_text_compare_gui.py:427-435 | at most one report per position, with positions strictly increasing and below the bound |
| GuiViewer.PaddedUpToMembers | pdf_text_compare_gui.py:427-435 | as written, a position below max(len L, len R) is reported exactly when its "[없음]"-padded words differ |
| GuiViewer.PaddedEmptyIff | pdf_text_compare_gui.py:427-435 | as written, nothing is reported exactly when the padded words agree at every position below max(len L, len R) |
| GuiViewer.PlaceholderHidesWord | pdf_text_compare_gui.py:431-434 | ["[없음]"] against [] reports nothing as written, but position 0 as intended |
| GuiViewer.MismatchesUpTo | pdf_text_compare_gui.py:427-435 | the corrected comparison also reports at most once per position, in increasing order |
| GuiViewer.MismatchesUpToMembers | pdf_text_compare_gui.py:427-435 | as intended, a position is reported exactly when the word lists differ there, where a missing word differs from every word |
| GuiViewer.MismatchesEmptyIff | pdf_text_compare_gui.py:430-455 | nothing is reported exactly when the two word lists are equal |
| GuiViewer.MismatchesAgree | pdf_text_compare_gui.py:427-435 | when neither side contains the word "[없음]", the written and the corrected comparison report the same positions |
| GuiViewer.CompareTexts | pdf_text_compare_gui.py:397-413 | the viewer warns exactly when either selected text is empty |
| GuiViewer.CompareTextsSame | pdf_text_compare_gui.py:415-435 | as written, two selections are reported identical exactly when their "[없음]"-padded words agree at every position |
| GuiViewer.CompareTextsSameWords | pdf_text_compare_gui.py:415-435 | as written, when no word is "[없음]", two selections are reported identical exactly when their normalised words are equal |
| GuiViewer.CompareTextsIntendedSame | pdf_text_compare_gui.py:415-435 | with the corrected comparison, two selections are reported identical exactly when their normalised words are equal |

## Left out

- **Qt and PyMuPDF.** All Qt code is outside the model: widgets, painting, zoom, scroll synchronisation, dialogs and the HTML result text. So are PyMuPDF calls, such as page rendering, text extraction and the rectangle intersection test. The model starts from the records extraction returns.
- **difflib.** The internals of `SequenceMatcher` and `Differ` are not modelled. Opcodes, ratios and differ lines are inputs or parameters. Rules that hold only for some inputs, such as ratio(s, s) = 1 (which autojunk breaks for long strings), are hypotheses of the lemmas that need them.
- **Character classes.** Full Unicode classes and case folding are not modelled. `\w`, `isalnum` and `isdigit` are modelled on ASCII plus Hangul, and `lower` only folds ASCII letters. The Unicode cases this excludes are not covered, for example characters whose lower-case form is ASCII, such as the Kelvin sign.
- **Regular expressions.** Regular expressions are modelled through the string functions they compute. The patterns of `is_placeholder_diff` are reduced to the ones that decide its result: a digit, two adjacent Hangul syllables, or an upper-case run. The longer patterns all contain one of these.
- **Sorting.SortByKey** is proved sorted and a permutation, but not stable. Ties in the source's sort keys are kept in input order by Python, and the model does not prove this.
- **Posid.NormalizeWord** is not claimed idempotent: "(1)" shows it is not (Posid.NormalizeWordNotIdempotent).
- **Posid.ThousandManExample.** "1,000만원" normalises to "10000000원", not "10000000": the code keeps the trailing 원. The model follows the code.
- **Unused flags.** `is_placeholder_diff` computes B's placeholder flag and never uses it. The model leaves that flag out (PdDiff.PlaceholderInBIgnored).
- TextComparator.Scores: scores are exact reals, not IEEE doubles. The model adds the 0.1 section bonus exactly, while Python rounds the sum, so 0.7 + 0.1 is below 0.8 in the program. Where such a rounding turns a tie into a strict win (or the reverse), or moves a score across the 0.6 threshold, the program's chosen match can differ from the model's.
- **Matching in `perform_comparison`.** It searches all of B for every A block and never skips a claimed block, so its sync map is not injective. `compare_blocks` searches all of B too and drops an A block whose best match is already claimed. Both are modelled as written.
- **Posid.IsMeaningless.** The URL test lower-cases the word first, and the model applies it to lower-case letters only, as above.
- **Section structurer.** It builds sections by mutating dictionaries it has already appended. The model folds over the lines and attaches a minor section to its major when the minor closes. Nothing is appended in between, so the result is the same.
- **AdvancedViewer.CompareWordsSpec.** The replace message's paired right word (`words_right[j1 + (i - i1)]`) is used only to decide whether the expansion raises. The text of that message is not modelled.
- **Debug output.** Debug `print` calls, exception handlers that only log, and the scroll mapping of the viewers are not modelled.
- **External tools.** The HWP converter, the test-PDF generator and the insurance GUI's worker thread are not part of this model.

## Findings

| source | as written | input that shows it | evidently intended | confidence | as-written member | corrected member |
|---|---|---|---|---|---|---|
| pdf_text_compare_advanced.py:625-636 | the `break` leaves only the inner loop over a sentence's words, and `current_index` is not advanced past the match, so every later sentence's first word also equals the target index | sentences [["가."], ["나"]], difference at index 0: both words are highlighted | highlight only the word at the difference's index | medium, not executed | AdvancedViewer.LookupAsWritten (AdvancedViewer.ExtraHighlight, AdvancedViewer.LookupAsWrittenSpec, end to end in AdvancedViewer.CompareSelections) | AdvancedViewer.Lookup (AdvancedViewer.LookupSpec, AdvancedViewer.LocationsExact, end to end in AdvancedViewer.CompareSelectionsIntended) |
| pdf_text_compare_gui.py:431-434 | a missing word is padded with the string "[없음]" and compared as a string, so a real word "[없음]" against a missing one counts as equal | left words ["[없음]"], right words []: reported identical | a missing word differs from every word | low, not executed | GuiViewer.PaddedMismatches (GuiViewer.PlaceholderHidesWord, end to end in GuiViewer.CompareTextsSame) | GuiViewer.Mismatches (GuiViewer.MismatchesEmptyIff, end to end in GuiViewer.CompareTextsIntendedSame) |
