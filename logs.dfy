/**
 * The two append-only logs, the daily log and the work log, and the page's
 * view of their last lines. A log file is held as the rows written to it;
 * each row is the list of fields handed to the CSV writer.
 */
module Logs {
  import opened Options
  import opened Text

  /** A field as handed to the CSV writer: a string, or a checkbox value. */
  datatype Field = Str(s: string) | Bool(b: bool)

  type Row = seq<Field>

  /**
   * The `responses` dict of the page: label to checkbox value, in insertion
   * order. No two entries share a key.
   */
  type Dict = seq<(string, bool)>

  function Keys(d: Dict): seq<string>
  {
    seq(|d|, i requires 0 <= i < |d| => d[i].0)
  }

  function Values(d: Dict): seq<bool>
  {
    seq(|d|, i requires 0 <= i < |d| => d[i].1)
  }

  predicate Distinct(s: seq<string>)
  {
    forall i, j :: 0 <= i < j < |s| ==> s[i] != s[j]
  }

  /** Position of key `k` in `d`, or `|d|` when `k` is not a key. */
  function KeyIndex(d: Dict, k: string): (i: nat)
    ensures i <= |d|
    ensures i < |d| ==> d[i].0 == k
    ensures i == |d| <==> k !in Keys(d)
  {
    if d == [] then 0
    else if d[0].0 == k then
      assert Keys(d)[0] == k;
      0
    else
      var i := 1 + KeyIndex(d[1..], k);
      assert Keys(d) == [d[0].0] + Keys(d[1..]);
      i
  }

  /**
   * `d[k] = v`: an existing key keeps its position and takes the new value,
   * a new key goes to the end; every other entry is left alone.
   */
  function Assign(d: Dict, k: string, v: bool): (r: Dict)
    ensures Keys(r) == if k in Keys(d) then Keys(d) else Keys(d) + [k]
    ensures KeyIndex(d, k) < |r| && r[KeyIndex(d, k)] == (k, v)
    ensures forall j :: 0 <= j < |d| && j != KeyIndex(d, k) ==> r[j] == d[j]
  {
    var i := KeyIndex(d, k);
    if i < |d| then
      assert Keys(d[i := (k, v)]) == Keys(d);
      d[i := (k, v)]
    else
      assert Keys(d + [(k, v)]) == Keys(d) + [k];
      d + [(k, v)]
  }

  /** The dict the checkbox loop builds: one assignment per label, in list order. */
  function ResponsesOf(items: seq<string>, checked: seq<bool>): Dict
    requires |items| == |checked|
  {
    if items == [] then []
    else
      var n := |items| - 1;
      Assign(ResponsesOf(items[..n], checked[..n]), items[n], checked[n])
  }

  /** The labels in order of first occurrence, every later duplicate dropped. */
  function FirstOccurrences(s: seq<string>): seq<string>
  {
    if s == [] then []
    else
      var n := |s| - 1;
      if s[n] in s[..n] then FirstOccurrences(s[..n]) else FirstOccurrences(s[..n]) + [s[n]]
  }

  /** Index of the last occurrence of `k` in `s`. */
  function LastIndex(s: seq<string>, k: string): (i: nat)
    requires k in s
    ensures i < |s| && s[i] == k
    ensures forall j :: i < j < |s| ==> s[j] != k
  {
    var n := |s| - 1;
    if s[n] == k then n
    else
      assert k in s[..n] by {
        var j :| 0 <= j < |s| && s[j] == k;
        assert s[..n][j] == k;
      }
      LastIndex(s[..n], k)
  }

  /** The checkbox loop of the page: fills the dict one label at a time. */
  method BuildResponses(items: seq<string>, checked: seq<bool>) returns (responses: Dict)
    requires |items| == |checked|
    ensures responses == ResponsesOf(items, checked)
  {
    responses := [];
    for i := 0 to |items|
      invariant responses == ResponsesOf(items[..i], checked[..i])
    {
      assert items[..i + 1][..i] == items[..i];
      assert checked[..i + 1][..i] == checked[..i];
      responses := Assign(responses, items[i], checked[i]);
    }
    assert items[..|items|] == items;
    assert checked[..|checked|] == checked;
  }

  /** The dict's keys are the labels in order of first occurrence. */
  lemma {:induction false} ResponsesKeys(items: seq<string>, checked: seq<bool>)
    requires |items| == |checked|
    ensures Keys(ResponsesOf(items, checked)) == FirstOccurrences(items)
    decreases |items|
  {
    if items != [] {
      var n := |items| - 1;
      ResponsesKeys(items[..n], checked[..n]);
      FirstOccurrencesMembership(items[..n]);
    }
  }

  /** A label is kept exactly when it occurs, and is kept once. */
  lemma {:induction false} FirstOccurrencesMembership(s: seq<string>)
    ensures forall x :: x in FirstOccurrences(s) <==> x in s
    ensures Distinct(FirstOccurrences(s))
    decreases |s|
  {
    if s != [] {
      var n := |s| - 1;
      FirstOccurrencesMembership(s[..n]);
      assert s == s[..n] + [s[n]];
    }
  }

  /** With distinct labels the dict is the labels paired with their checkbox values, in order. */
  lemma {:induction false} ResponsesOfDistinct(items: seq<string>, checked: seq<bool>)
    requires |items| == |checked| && Distinct(items)
    ensures Keys(ResponsesOf(items, checked)) == items
    ensures Values(ResponsesOf(items, checked)) == checked
    decreases |items|
  {
    if items != [] {
      var n := |items| - 1;
      var d := ResponsesOf(items[..n], checked[..n]);
      ResponsesOfDistinct(items[..n], checked[..n]);
      assert items[n] !in Keys(d);
      var r := Assign(d, items[n], checked[n]);
      assert r == d + [(items[n], checked[n])];
      assert Values(r) == Values(d) + [checked[n]];
      assert items == items[..n] + [items[n]];
      assert checked == checked[..n] + [checked[n]];
    }
  }

  /** For a repeated label the value kept is that of its last checkbox. */
  lemma {:induction false} ResponsesLastWins(items: seq<string>, checked: seq<bool>, k: string)
    requires |items| == |checked| && k in items
    ensures KeyIndex(ResponsesOf(items, checked), k) < |ResponsesOf(items, checked)|
    ensures ResponsesOf(items, checked)[KeyIndex(ResponsesOf(items, checked), k)].1 == checked[LastIndex(items, k)]
    decreases |items|
  {
    var n := |items| - 1;
    var d := ResponsesOf(items[..n], checked[..n]);
    var r := ResponsesOf(items, checked);
    ResponsesKeys(items, checked);
    FirstOccurrencesMembership(items);
    if items[n] == k {
      KeyIndexUnique(r, k, KeyIndex(d, k));
    } else {
      assert k in items[..n] by {
        var j :| 0 <= j < |items| && items[j] == k;
        assert items[..n][j] == k;
      }
      ResponsesLastWins(items[..n], checked[..n], k);
      ResponsesKeys(items[..n], checked[..n]);
      FirstOccurrencesMembership(items[..n]);
      var i := KeyIndex(d, k);
      assert r[i] == d[i];
      KeyIndexUnique(r, k, i);
    }
  }

  /** When `d[i]` holds key `k` and keys are distinct, `i` is where `k` is found. */
  lemma KeyIndexUnique(d: Dict, k: string, i: nat)
    requires i < |d| && d[i].0 == k && Distinct(Keys(d))
    ensures KeyIndex(d, k) == i
  {
    var j := KeyIndex(d, k);
    assert k in Keys(d) by { assert Keys(d)[i] == k; }
    assert Keys(d)[j] == k == Keys(d)[i];
  }

  /** The daily log's header: `["Date"] + keys + ["Notes"]`. */
  function DailyHeader(responses: Dict): (header: Row)
    ensures |header| == |responses| + 2
    ensures header[0] == Str("Date") && header[|header| - 1] == Str("Notes")
  {
    [Str("Date")] + seq(|responses|, i requires 0 <= i < |responses| => Str(responses[i].0)) + [Str("Notes")]
  }

  /** The daily log's data row: `[date] + values + [notes]`. */
  function DailyRow(date: string, responses: Dict, notes: string): (row: Row)
    ensures |row| == |responses| + 2
    ensures row[0] == Str(date) && row[|row| - 1] == Str(notes)
  {
    [Str(date)] + seq(|responses|, i requires 0 <= i < |responses| => Bool(responses[i].1)) + [Str(notes)]
  }

  /**
   * Header and data row written from the same dict line up: the same
   * number of columns, and column `j` of the row holds the value of the
   * label named in column `j` of the header.
   */
  lemma DailyColumnsAligned(date: string, responses: Dict, notes: string)
    ensures |DailyHeader(responses)| == |DailyRow(date, responses, notes)| == |responses| + 2
    ensures DailyHeader(responses)[0] == Str("Date") && DailyRow(date, responses, notes)[0] == Str(date)
    ensures forall j :: 1 <= j <= |responses| ==>
      DailyHeader(responses)[j] == Str(responses[j - 1].0) &&
      DailyRow(date, responses, notes)[j] == Bool(responses[j - 1].1)
    ensures DailyHeader(responses)[|responses| + 1] == Str("Notes")
    ensures DailyRow(date, responses, notes)[|responses| + 1] == Str(notes)
  {
  }

  /** The work log's header. */
  const WorkHeader: Row := [Str("Date"), Str("Work Done")]

  /**
   * The work log's data row: the date and the note with surrounding
   * whitespace removed, in the two columns of the header.
   */
  function WorkRow(date: string, note: string): (row: Row)
    ensures |row| == |WorkHeader| && row[0] == Str(date)
    ensures row[1].Str? && IsStripped(row[1].s) && (row[1].s == [] <==> AllSpace(note))
  {
    [Str(date), Str(Strip(note))]
  }

  /** The rows of a log file; none when it does not exist. */
  function Rows(file: Option<seq<Row>>): seq<Row>
  {
    if file.Some? then file.value else []
  }

  /**
   * Appending to a log: the file exists afterwards, its earlier rows are
   * untouched, exactly one data row is added at the end, and the header is
   * written first exactly when the file did not exist.
   */
  function AppendRow(file: Option<seq<Row>>, header: Row, row: Row): (r: Option<seq<Row>>)
    ensures r.Some?
    ensures |r.value| == |Rows(file)| + (if file.None? then 2 else 1)
    ensures r.value[..|Rows(file)|] == Rows(file)
    ensures r.value[|r.value| - 1] == row
    ensures file.None? ==> r.value[0] == header
  {
    match file
    case None => Some([header, row])
    case Some(rows) =>
      assert (rows + [row])[..|rows|] == rows;
      Some(rows + [row])
  }

  /** Saving twice, with the same date or not, leaves two new rows: nothing is merged. */
  lemma AppendTwice(file: Option<seq<Row>>, header: Row, row1: Row, row2: Row)
    ensures var r := AppendRow(AppendRow(file, header, row1), header, row2);
      |r.value| == |Rows(file)| + (if file.None? then 3 else 2) &&
      r.value[|r.value| - 2] == row1 && r.value[|r.value| - 1] == row2
  {
    var once := AppendRow(file, header, row1);
    var r := AppendRow(once, header, row2);
    assert r.value[..|once.value|] == once.value;
    assert r.value[|r.value| - 2] == r.value[..|once.value|][|once.value| - 1];
  }

  /**
   * The header of an existing log is never rewritten, whatever the columns
   * of the rows appended after it.
   */
  lemma HeaderKept(file: Option<seq<Row>>, header: Row, row: Row)
    requires file.Some? && |file.value| > 0
    ensures AppendRow(file, header, row).value[0] == file.value[0]
  {
    var r := AppendRow(file, header, row);
    assert r.value[..|file.value|][0] == r.value[0];
  }

  /**
   * Schema drift: once the checklist has gained a label, the next daily row
   * has one column more than the header written with the old checklist.
   */
  lemma SchemaDrift(date: string, before: Dict, after: Dict, notes: string)
    requires |after| == |before| + 1
    ensures var r := AppendRow(AppendRow(None, DailyHeader(before), DailyRow(date, before, notes)),
                               DailyHeader(after), DailyRow(date, after, notes));
      r.value[0] == DailyHeader(before) && |r.value[2]| == |r.value[0]| + 1
  {
  }

  function Min(a: int, b: int): int
  {
    if a < b then a else b
  }

  /** How many lines the page shows of each log. */
  const ShownLines: int := 10

  /** Python's `s[start:]`, where a negative `start` counts from the end. */
  function SliceFrom<T>(s: seq<T>, start: int): (r: seq<T>)
    ensures |r| <= |s| && r == s[|s| - |r|..]
    ensures 0 <= start <= |s| ==> |r| == |s| - start
    ensures -|s| <= start < 0 ==> |r| == -start
    ensures start < -|s| ==> r == s
    ensures |s| < start ==> r == []
  {
    var i := if start < 0 then (if |s| + start < 0 then 0 else |s| + start)
             else (if start > |s| then |s| else start);
    s[i..]
  }

  /** `lines[-10:]`: the last ten lines, or all of them when there are fewer, unchanged and in order. */
  function Tail<T>(lines: seq<T>): (r: seq<T>)
    ensures |r| == Min(ShownLines, |lines|)
    ensures r == lines[|lines| - |r|..]
  {
    SliceFrom(lines, -ShownLines)
  }

  /** A log of at most ten lines is shown whole, its header line included. */
  lemma TailOfShortLog<T>(lines: seq<T>)
    requires |lines| <= ShownLines
    ensures Tail(lines) == lines
  {
    assert lines[0..] == lines;
  }

  /** After one more line the view ends with it and drops the oldest line once the view is full. */
  lemma TailAppend<T>(lines: seq<T>, x: T)
    ensures Tail(lines + [x]) ==
      (if |lines| < ShownLines then lines else lines[|lines| - ShownLines + 1..]) + [x]
  {
    var s := lines + [x];
    if |lines| < ShownLines {
      assert Tail(s) == s[0..];
    } else {
      assert s[|s| - ShownLines..] == lines[|lines| - ShownLines + 1..] + [x];
    }
  }

  /**
   * Either past-entries view of the page: nothing when the file does not exist,
   * otherwise its last ten lines as `readlines()` gives them, joined back together.
   */
  function PastEntries(file: Option<string>): (shown: Option<string>)
    ensures shown.Some? <==> file.Some?
  {
    match file
    case None => None
    case Some(text) => Some(Join(Tail(ReadLines(Translate(text)))))
  }

  /** What the view shows is the end of the file's text, unmodified. */
  lemma PastEntriesIsSuffix(text: string)
    ensures var lines := ReadLines(Translate(text));
      var k := |lines| - Min(ShownLines, |lines|);
      Translate(text) == Join(lines[..k]) + PastEntries(Some(text)).value
  {
    var lines := ReadLines(Translate(text));
    var k := |lines| - Min(ShownLines, |lines|);
    assert lines == lines[..k] + lines[k..];
    JoinAppend(lines[..k], lines[k..]);
  }

  /** A log of at most ten lines is shown in full. */
  lemma PastEntriesOfShortLog(text: string)
    requires |ReadLines(Translate(text))| <= ShownLines
    ensures PastEntries(Some(text)) == Some(Translate(text))
  {
    TailOfShortLog(ReadLines(Translate(text)));
  }
}
