/** The positive-quote heuristic: `extract_positive_quotes` in
    scripts/analyze_trainer_feedback.py, the choice of the two longest quotes in
    `main`, and the source-label cleanup of the HTML report. */
module Quotes {
  import opened Wrappers
  import opened Text
  import opened Records
  import opened Sorting

  /** `positive_keywords`. */
  const Keywords: seq<string> := [
    "excellent", "great", "love", "helpful", "enjoyed",
    "beneficial", "best", "appreciated", "wonderful",
    "positive", "fun", "engaging", "motivated", "patient",
    "clear", "friendly", "approachable", "flexible"]

  /** Stripped texts shorter than this are skipped. */
  const MinQuoteLength: nat := 20
  /** Longer quotes are cut to this many characters and get an ellipsis. */
  const MaxQuoteLength: nat := 200
  const Ellipsis: string := "..."
  /** `all_quotes[:2]`. */
  const MaxSelected: nat := 2

  /** One entry of `quotes`: `row_id`, `quote` and `source_column`. */
  datatype Quote = Quote(rowId: string, text: string, source: string)

  /** `row[col]`: the text cell of a row, absent when the row has no such cell. */
  function TextCell(r: Row, col: string): Option<string> {
    if col in r.texts then r.texts[col] else None
  }

  /** The placeholders the source treats as "no answer". */
  predicate IsPlaceholder(text: string) {
    text == "" || text == "nan" || text == "-"
  }

  /** `any(keyword in text_lower for keyword in positive_keywords)`. */
  predicate HasPositive(textLower: string) {
    exists k :: 0 <= k < |Keywords| && Contains(textLower, Keywords[k])
  }

  /** `text_str[:200] + "..."` for texts over 200 characters. */
  function Truncate(textStr: string): string {
    if |textStr| > MaxQuoteLength then textStr[..MaxQuoteLength] + Ellipsis else textStr
  }

  /** The loop body of `extract_positive_quotes` for one cell: the quote it
      appends, or `None` where it `continue`s. */
  function QuoteOf(cell: Option<string>, rowId: string, col: string): (q: Option<Quote>)
    ensures q.Some? ==> q.value.rowId == rowId && q.value.source == col
    ensures q.Some? ==> MinQuoteLength <= |q.value.text| <= MaxQuoteLength + |Ellipsis|
  {
    match cell
    case None => None
    case Some(text) =>
      if IsPlaceholder(text) then None
      else
        var textStr := Strip(text);
        if |textStr| < MinQuoteLength then None
        else if !HasPositive(Lower(textStr)) then None
        else Some(Quote(rowId, Truncate(textStr), col))
  }

  /** A cell becomes a quote exactly when it is present, not a placeholder, at
      least 20 characters long once stripped, and contains a keyword in lower case.
      The quote is the stripped text, cut to 200 characters plus an ellipsis when
      longer, and carries the row id and column it came from. */
  lemma QuoteOfSpec(cell: Option<string>, rowId: string, col: string)
    ensures var q := QuoteOf(cell, rowId, col);
      q.Some? <==>
        && cell.Some? && !IsPlaceholder(cell.value)
        && |Strip(cell.value)| >= MinQuoteLength
        && HasPositive(Lower(Strip(cell.value)))
    ensures var q := QuoteOf(cell, rowId, col);
      q.Some? ==>
        var t := Strip(cell.value);
        && q.value.rowId == rowId && q.value.source == col
        && MinQuoteLength <= |q.value.text| <= MaxQuoteLength + |Ellipsis|
        && (|t| <= MaxQuoteLength ==> q.value.text == t)
        && (|t| > MaxQuoteLength ==>
              |q.value.text| == MaxQuoteLength + |Ellipsis|
              && q.value.text[..MaxQuoteLength] == t[..MaxQuoteLength]
              && q.value.text[MaxQuoteLength..] == Ellipsis)
  {
  }

  function QuoteSeq(q: Option<Quote>): seq<Quote> {
    if q.Some? then [q.value] else []
  }

  /** The quotes of one column, in row order. */
  function ColumnQuotes(rows: seq<Row>, col: string): seq<Quote> {
    if rows == [] then []
    else
      var last := rows[|rows| - 1];
      ColumnQuotes(rows[..|rows| - 1], col) + QuoteSeq(QuoteOf(TextCell(last, col), last.rowId, col))
  }

  /** The quotes of all text columns present in the frame, column by column. */
  function Extracted(rows: seq<Row>, textCols: seq<string>, frameCols: set<string>): seq<Quote> {
    if textCols == [] then []
    else
      var col := textCols[|textCols| - 1];
      Extracted(rows, textCols[..|textCols| - 1], frameCols)
        + (if col in frameCols then ColumnQuotes(rows, col) else [])
  }

  lemma ColumnQuotesStep(rows: seq<Row>, col: string, k: nat)
    requires k < |rows|
    ensures ColumnQuotes(rows[..k + 1], col) ==
      ColumnQuotes(rows[..k], col) + QuoteSeq(QuoteOf(TextCell(rows[k], col), rows[k].rowId, col))
  {
    assert rows[..k + 1][..k] == rows[..k];
  }

  lemma ExtractedStep(rows: seq<Row>, textCols: seq<string>, frameCols: set<string>, c: nat)
    requires c < |textCols|
    ensures Extracted(rows, textCols[..c + 1], frameCols) ==
      Extracted(rows, textCols[..c], frameCols)
        + (if textCols[c] in frameCols then ColumnQuotes(rows, textCols[c]) else [])
  {
    assert textCols[..c + 1][..c] == textCols[..c];
  }

  /** `extract_positive_quotes(df, text_cols)`: for every text column in the frame,
      for every row in order, append the row's quote if its cell is one. */
  method ExtractPositiveQuotes(rows: seq<Row>, textCols: seq<string>, frameCols: set<string>)
    returns (quotes: seq<Quote>)
    ensures quotes == Extracted(rows, textCols, frameCols)
  {
    quotes := [];
    for c := 0 to |textCols|
      invariant quotes == Extracted(rows, textCols[..c], frameCols)
    {
      var col := textCols[c];
      ExtractedStep(rows, textCols, frameCols, c);
      if col in frameCols {
        quotes := AppendColumnQuotes(quotes, rows, col);
      }
    }
    assert textCols[..|textCols|] == textCols;
  }

  /** The inner loop of `extract_positive_quotes`: the rows of one column, in order. */
  method AppendColumnQuotes(before: seq<Quote>, rows: seq<Row>, col: string) returns (quotes: seq<Quote>)
    ensures quotes == before + ColumnQuotes(rows, col)
  {
    quotes := before;
    for k := 0 to |rows|
      invariant quotes == before + ColumnQuotes(rows[..k], col)
    {
      var row := rows[k];
      var found := CellQuote(TextCell(row, col), row.rowId, col);
      ColumnQuotesStep(rows, col, k);
      assert quotes + QuoteSeq(found) == before + (ColumnQuotes(rows[..k], col) + QuoteSeq(found));
      quotes := quotes + QuoteSeq(found);
    }
    assert rows[..|rows|] == rows;
  }

  /** The filter, keyword test and truncation for one cell, step by step. */
  method CellQuote(text: Option<string>, rowId: string, col: string) returns (found: Option<Quote>)
    ensures found == QuoteOf(text, rowId, col)
  {
    if text.None? || text.value == "" || text.value == "nan" || text.value == "-" {
      return None;
    }
    var textStr := Strip(text.value);
    if |textStr| < MinQuoteLength {
      return None;
    }
    var textLower := Lower(textStr);
    if !HasPositive(textLower) {
      return None;
    }
    if |textStr| > MaxQuoteLength {
      textStr := textStr[..MaxQuoteLength] + Ellipsis;
    }
    found := Some(Quote(rowId, textStr, col));
  }

  // ---------------------------------------------------------------- properties of the extraction

  lemma {:induction false} ColumnQuotesSound(rows: seq<Row>, col: string, q: Quote)
    requires q in ColumnQuotes(rows, col)
    ensures exists r :: r in rows && QuoteOf(TextCell(r, col), r.rowId, col) == Some(q)
  {
    var init := rows[..|rows| - 1];
    var last := rows[|rows| - 1];
    if q in ColumnQuotes(init, col) {
      ColumnQuotesSound(init, col, q);
      var r :| r in init && QuoteOf(TextCell(r, col), r.rowId, col) == Some(q);
      assert r in rows;
    } else {
      assert last in rows;
    }
  }

  lemma {:induction false} ColumnQuotesComplete(rows: seq<Row>, col: string, k: nat)
    requires k < |rows| && QuoteOf(TextCell(rows[k], col), rows[k].rowId, col).Some?
    ensures QuoteOf(TextCell(rows[k], col), rows[k].rowId, col).value in ColumnQuotes(rows, col)
  {
    if k < |rows| - 1 {
      var init := rows[..|rows| - 1];
      assert init[k] == rows[k];
      ColumnQuotesComplete(init, col, k);
    }
  }

  /** Every extracted quote comes from a cell of one of the rows, in a text
      column the frame has, and is what that cell yields. */
  lemma {:induction false} ExtractedSound(rows: seq<Row>, textCols: seq<string>, frameCols: set<string>, q: Quote)
    requires q in Extracted(rows, textCols, frameCols)
    ensures q.source in textCols && q.source in frameCols
    ensures exists r :: r in rows && QuoteOf(TextCell(r, q.source), r.rowId, q.source) == Some(q)
  {
    var init := textCols[..|textCols| - 1];
    var col := textCols[|textCols| - 1];
    if q in Extracted(rows, init, frameCols) {
      ExtractedSound(rows, init, frameCols, q);
      var m :| 0 <= m < |init| && init[m] == q.source;
      assert textCols[m] == q.source;
    } else {
      ColumnQuotesSound(rows, col, q);
      var r :| r in rows && QuoteOf(TextCell(r, col), r.rowId, col) == Some(q);
    }
  }

  /** Every cell of a row, in a text column the frame has, that qualifies is extracted. */
  lemma {:induction false} ExtractedComplete(rows: seq<Row>, textCols: seq<string>, frameCols: set<string>, k: nat, c: nat)
    requires k < |rows| && c < |textCols| && textCols[c] in frameCols
    requires QuoteOf(TextCell(rows[k], textCols[c]), rows[k].rowId, textCols[c]).Some?
    ensures QuoteOf(TextCell(rows[k], textCols[c]), rows[k].rowId, textCols[c]).value
      in Extracted(rows, textCols, frameCols)
  {
    var init := textCols[..|textCols| - 1];
    if c < |textCols| - 1 {
      assert init[c] == textCols[c];
      ExtractedComplete(rows, init, frameCols, k, c);
    } else {
      ColumnQuotesComplete(rows, textCols[c], k);
    }
  }

  /** A text that does not begin or end with whitespace, is 20 to 200 characters
      long and contains a keyword is quoted whole. */
  lemma PraiseQuotedWhole(text: string, rowId: string, col: string, k: nat)
    requires MinQuoteLength <= |text| <= MaxQuoteLength
    requires !IsSpace(text[0]) && !IsSpace(text[|text| - 1])
    requires k < |Keywords| && Contains(Lower(text), Keywords[k])
    ensures QuoteOf(Some(text), rowId, col) == Some(Quote(rowId, text, col))
  {
    StripTrimmed(text);
  }

  /** The keyword test ignores the case of the text: a keyword written in any
      mix of upper and lower case is found. */
  lemma KeywordInAnyCase(before: string, word: string, after: string, k: nat)
    requires k < |Keywords| && |word| == |Keywords[k]|
    requires forall i :: 0 <= i < |word| ==> LowerChar(word[i]) == Keywords[k][i]
    ensures HasPositive(Lower(before + word + after))
  {
    var s := before + word + after;
    var l := Lower(s);
    assert l == Lower(before) + Keywords[k] + Lower(after) by {
      forall i | 0 <= i < |l| ensures l[i] == (Lower(before) + Keywords[k] + Lower(after))[i] {
        if |before| <= i < |before| + |word| {
          assert s[i] == word[i - |before|];
        } else if i < |before| {
          assert s[i] == before[i];
        } else {
          assert s[i] == after[i - |before| - |word|];
        }
      }
    }
    ContainsInside(Lower(before), Keywords[k], Lower(after));
  }

  /** The `'-'` placeholder is never a quote, and neither is any text shorter
      than 20 characters. */
  lemma ShortTextsSkipped(text: string, rowId: string, col: string)
    requires |text| < MinQuoteLength
    ensures QuoteOf(Some(text), rowId, col) == None
    ensures QuoteOf(Some("-"), rowId, col) == None
    ensures QuoteOf(None, rowId, col) == None
  {
  }

  // ---------------------------------------------------------------- selection

  function QuoteLength(q: Quote): real {
    |q.text| as real
  }

  /** `all_quotes.sort(key=len(quote), reverse=True)` followed by `all_quotes[:2]`:
      at most two quotes, all taken from the extracted ones, longest first. */
  function SelectQuotes(all: seq<Quote>): (selected: seq<Quote>)
    ensures |selected| == if |all| < MaxSelected then |all| else MaxSelected
    ensures multiset(selected) <= multiset(all)
    ensures forall i, j :: 0 <= i < j < |selected| ==> |selected[i].text| >= |selected[j].text|
  {
    var sorted := SortDesc(all, QuoteLength);
    TakeIsSubMultiset(sorted, MaxSelected);
    Take(sorted, MaxSelected)
  }

  /** No quote left out is longer than a selected one. */
  lemma SelectedAreLongest(all: seq<Quote>, i: nat, q: Quote)
    requires i < |SelectQuotes(all)|
    requires q in multiset(all) - multiset(SelectQuotes(all))
    ensures |q.text| <= |SelectQuotes(all)[i].text|
  {
    TakeSortedDominates(all, QuoteLength, MaxSelected, i, q);
  }

  /** Quotes of equal length keep the order of extraction (the sort is stable). */
  lemma EqualLengthsKeepOrder(all: seq<Quote>, n: nat)
    ensures WithKey(SortDesc(all, QuoteLength), QuoteLength, n as real) == WithKey(all, QuoteLength, n as real)
  {
    SortDescStable(all, QuoteLength, n as real);
  }

  // ---------------------------------------------------------------- source label

  function DropStars(s: string): (r: string)
    ensures forall i :: 0 <= i < |r| ==> r[i] != '*'
    ensures |r| <= |s|
  {
    if s == [] then [] else (if s[0] == '*' then [] else [s[0]]) + DropStars(s[1..])
  }

  /** The label the HTML report shows for a quote's column: the part after the
      first `_` (the whole name when it has none), without `*`, stripped. */
  function SourceLabel(source: string): (shown: string)
    ensures forall i :: 0 <= i < |shown| ==> shown[i] != '*'
    ensures shown == [] || (!IsSpace(shown[0]) && !IsSpace(shown[|shown| - 1]))
    ensures |shown| <= |source|
  {
    var u := IndexOf(source, '_');
    var rest := if u < |source| then source[u + 1..] else source;
    Strip(DropStars(rest))
  }

  /** Position of the first `c` in `s`, or `|s|`. */
  function IndexOf(s: string, c: char): (k: nat)
    ensures k <= |s| && (k < |s| ==> s[k] == c)
    ensures forall i :: 0 <= i < k ==> s[i] != c
  {
    if s == [] then 0 else if s[0] == c then 0 else 1 + IndexOf(s[1..], c)
  }

  lemma {:induction false} DropStarsNone(s: string)
    requires forall i :: 0 <= i < |s| ==> s[i] != '*'
    ensures DropStars(s) == s
  {
    if s != [] {
      DropStarsNone(s[1..]);
    }
  }

  /** Only the question number before the first `_` is dropped: a column named
      `number_question` with a question free of `*` and of surrounding spaces is
      labelled by its question. */
  lemma SourceLabelOfQuestion(number: string, question: string)
    requires forall i :: 0 <= i < |number| ==> number[i] != '_'
    requires forall i :: 0 <= i < |question| ==> question[i] != '*'
    requires question != [] && !IsSpace(question[0]) && !IsSpace(question[|question| - 1])
    ensures SourceLabel(number + "_" + question) == question
  {
    var source := number + "_" + question;
    assert source[|number|] == '_';
    assert IndexOf(source, '_') == |number|;
    assert source[|number| + 1..] == question;
    DropStarsNone(question);
    StripTrimmed(question);
  }
}
