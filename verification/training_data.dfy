/**
 * The training-set builder of the data-processing notebook: the review table
 * loses its link and title columns, rows without a usable review or reply are
 * dropped, and every remaining row becomes a prompt/completion pair. The
 * prompt lists every other column as `name: value`, one per line; the
 * completion is the trimmed developer reply.
 */
module TrainingData {
  import opened Wrappers
  import opened Strings

  const ReviewLink: string := "Review Link"
  const ReviewTitle: string := "Review Title"
  const ReviewText: string := "Review Text"
  const ReplyText: string := "Developer Reply Text"

  // ---------------------------------------------------------------------------
  // The table
  // ---------------------------------------------------------------------------

  /** A cell of the review table: a missing value (`NaN`) or the value's text. */
  datatype Cell = Missing | Value(text: string)

  /** How a cell reads inside an f-string or after `astype(str)`: a missing value reads `nan`. */
  function Show(c: Cell): string {
    match c
    case Missing => "nan"
    case Value(t) => t
  }

  /** A data frame: named columns and rows of cells, one per column. */
  datatype Table = Table(columns: seq<string>, rows: seq<seq<Cell>>)

  predicate Distinct(names: seq<string>) {
    forall i, j :: 0 <= i < j < |names| ==> names[i] != names[j]
  }

  /** Column names are distinct (as `read_csv` makes them) and every row has one cell per column. */
  predicate WellFormed(t: Table) {
    Distinct(t.columns) && forall r :: r in t.rows ==> |r| == |t.columns|
  }

  /** Position of `name` among `names`: the first one, if there is one. */
  function IndexOf(names: seq<string>, name: string): (r: Option<nat>)
    ensures r.None? <==> name !in names
    ensures r.Some? ==> r.value < |names| && names[r.value] == name
    ensures r.Some? ==> name !in names[..r.value]
    decreases |names|
  {
    if |names| == 0 then None
    else if names[0] == name then Some(0)
    else
      match IndexOf(names[1..], name)
      case None => None
      case Some(i) =>
        assert names[..i + 1] == [names[0]] + names[1..][..i];
        Some(i + 1)
  }

  /** In a list of distinct names, a name's position is where it stands. */
  lemma IndexOfDistinct(names: seq<string>, j: nat)
    requires Distinct(names) && j < |names|
    ensures IndexOf(names, names[j]) == Some(j)
  {
  }

  /** The cell of `row` under column `name`. */
  function CellIn(columns: seq<string>, row: seq<Cell>, name: string): Cell
    requires |row| == |columns| && name in columns
  {
    row[IndexOf(columns, name).value]
  }

  /** `t.loc[i, name]`. */
  function CellAt(t: Table, i: nat, name: string): Cell
    requires WellFormed(t) && i < |t.rows| && name in t.columns
  {
    assert t.rows[i] in t.rows;
    CellIn(t.columns, t.rows[i], name)
  }

  /** `names` with every occurrence of `name` left out, the others in their order. */
  function Without(names: seq<string>, name: string): (r: seq<string>)
    ensures forall c :: c in r <==> c in names && c != name
    decreases |names|
  {
    if |names| == 0 then []
    else if names[0] == name then Without(names[1..], name)
    else [names[0]] + Without(names[1..], name)
  }

  lemma {:induction false} WithoutAbsent(names: seq<string>, name: string)
    requires name !in names
    ensures Without(names, name) == names
    decreases |names|
  {
    if |names| > 0 {
      WithoutAbsent(names[1..], name);
      assert names == [names[0]] + names[1..];
    }
  }

  /** The element at `k` taken out of `s`. */
  function RemoveAt<T>(s: seq<T>, k: nat): (r: seq<T>)
    requires k < |s|
    ensures |r| == |s| - 1
    ensures forall i :: 0 <= i < k ==> r[i] == s[i]
    ensures forall i :: k <= i < |r| ==> r[i] == s[i + 1]
  {
    s[..k] + s[k + 1..]
  }

  /** Taking out the only occurrence of a name is leaving that name out. */
  lemma {:induction false} RemoveAtIsWithout(names: seq<string>, k: nat)
    requires Distinct(names) && k < |names|
    ensures RemoveAt(names, k) == Without(names, names[k])
    decreases k
  {
    var name := names[k];
    if k == 0 {
      assert name !in names[1..] by {
        forall i | 1 <= i < |names| ensures names[i] != name { }
      }
      WithoutAbsent(names[1..], name);
      assert RemoveAt(names, 0) == names[1..];
    } else {
      var tail := names[1..];
      assert Distinct(tail) by {
        forall i, j | 0 <= i < j < |tail| ensures tail[i] != tail[j] {
          assert tail[i] == names[i + 1] && tail[j] == names[j + 1];
        }
      }
      assert tail[k - 1] == name;
      RemoveAtIsWithout(tail, k - 1);
      assert names[0] != name;
      assert RemoveAt(names, k) == [names[0]] + RemoveAt(tail, k - 1);
    }
  }

  /**
   * `df.drop(columns=[name])` when the column is there, and the table itself
   * when it is not: the column is gone, every other column keeps its place
   * in the order and its cells, and no row is lost.
   */
  function DropColumn(t: Table, name: string): (r: Table)
    requires WellFormed(t)
    ensures WellFormed(r)
    ensures r.columns == Without(t.columns, name)
    ensures name !in r.columns
    ensures name !in t.columns ==> r == t
    ensures |r.rows| == |t.rows|
    ensures forall i, c :: 0 <= i < |r.rows| && c in r.columns ==> CellAt(r, i, c) == CellAt(t, i, c)
  {
    match IndexOf(t.columns, name)
    case None =>
      WithoutAbsent(t.columns, name);
      t
    case Some(k) =>
      var cols := RemoveAt(t.columns, k);
      var rows := seq(|t.rows|, i requires 0 <= i < |t.rows| =>
                      assert t.rows[i] in t.rows; RemoveAt(t.rows[i], k));
      RemoveAtIsWithout(t.columns, k);
      var r := Table(cols, rows);
      DroppedTable(t, k, r);
      r
  }

  /** Taking column `k` out of the header and of every row keeps the table well formed and every other cell. */
  lemma DroppedTable(t: Table, k: nat, r: Table)
    requires WellFormed(t) && k < |t.columns|
    requires r.columns == RemoveAt(t.columns, k) && |r.rows| == |t.rows|
    requires forall m :: 0 <= m < |t.rows| ==> k < |t.rows[m]| && r.rows[m] == RemoveAt(t.rows[m], k)
    ensures WellFormed(r)
    ensures forall i, c :: 0 <= i < |r.rows| && c in r.columns ==> CellAt(r, i, c) == CellAt(t, i, c)
  {
    var cols := r.columns;
    assert Distinct(cols) by {
      forall i, j | 0 <= i < j < |cols| ensures cols[i] != cols[j] {
        var a := if i < k then i else i + 1;
        var b := if j < k then j else j + 1;
        assert cols[i] == t.columns[a] && cols[j] == t.columns[b] && a < b;
      }
    }
    forall row | row in r.rows ensures |row| == |cols| {
      var i :| 0 <= i < |r.rows| && r.rows[i] == row;
      assert t.rows[i] in t.rows;
    }
    forall i, c | 0 <= i < |r.rows| && c in cols
      ensures CellAt(r, i, c) == CellAt(t, i, c)
    {
      DroppedCell(t, k, r, i, c);
    }
  }

  /** The cell under `c` in row `i` of the table with column `k` taken out. */
  lemma DroppedCell(t: Table, k: nat, r: Table, i: nat, c: string)
    requires WellFormed(t) && k < |t.columns|
    requires r.columns == RemoveAt(t.columns, k) && |r.rows| == |t.rows|
    requires forall m :: 0 <= m < |t.rows| ==> k < |t.rows[m]| && r.rows[m] == RemoveAt(t.rows[m], k)
    requires WellFormed(r) && i < |r.rows| && c in r.columns
    ensures c in t.columns && CellAt(r, i, c) == CellAt(t, i, c)
  {
    var j := IndexOf(r.columns, c).value;
    var a := if j < k then j else j + 1;
    assert t.columns[a] == c;
    IndexOfDistinct(t.columns, a);
    assert t.rows[i] in t.rows;
  }

  // ---------------------------------------------------------------------------
  // Keeping the usable rows (lines 72-74)
  // ---------------------------------------------------------------------------

  /** A value the model can learn from: present and not blank after `str.strip()`. */
  predicate Usable(c: Cell) {
    c.Value? && Trim(Python, c.text) != ""
  }

  /**
   * `str.strip()` removes the information separators U+001C..U+001F, which
   * JavaScript's `trim()` keeps: a reply made of U+001F alone is not usable.
   */
  lemma SeparatorOnlyReplyIsUnusable()
    ensures !Usable(Value("\U{001F}"))
    ensures Trim(JavaScript, "\U{001F}") == "\U{001F}"
  {
  }

  /** `row` has one cell per column, and both its review and its reply are usable. */
  predicate UsableRow(columns: seq<string>, row: seq<Cell>)
    requires ReviewText in columns && ReplyText in columns
  {
    && |row| == |columns|
    && Usable(CellIn(columns, row, ReviewText))
    && Usable(CellIn(columns, row, ReplyText))
  }

  /** The `dropna` and the two `str.strip() != ''` filters: the usable rows, in their order. */
  function KeepUsable(columns: seq<string>, rows: seq<seq<Cell>>): (kept: seq<seq<Cell>>)
    requires ReviewText in columns && ReplyText in columns
    ensures |kept| <= |rows|
    ensures forall r :: r in kept <==> r in rows && UsableRow(columns, r)
    decreases |rows|
  {
    if |rows| == 0 then []
    else
      var tail := KeepUsable(columns, rows[1..]);
      assert rows == [rows[0]] + rows[1..];
      if UsableRow(columns, rows[0]) then [rows[0]] + tail else tail
  }

  /** Filtering is row by row: the rows kept from a concatenation are the concatenated kept rows. */
  lemma {:induction false} KeepUsableAppend(columns: seq<string>, a: seq<seq<Cell>>, b: seq<seq<Cell>>)
    requires ReviewText in columns && ReplyText in columns
    ensures KeepUsable(columns, a + b) == KeepUsable(columns, a) + KeepUsable(columns, b)
    decreases |a|
  {
    if |a| == 0 {
      assert a + b == b;
    } else {
      assert (a + b)[0] == a[0] && (a + b)[1..] == a[1..] + b;
      KeepUsableAppend(columns, a[1..], b);
    }
  }

  /** Why a build stops: `dropna` names the subset columns the table lacks. */
  datatype BuildError = MissingColumns(names: seq<string>)

  /** The required columns of `required` that `columns` lacks, in order. */
  function Missing(required: seq<string>, columns: seq<string>): (m: seq<string>)
    ensures forall c :: c in m <==> c in required && c !in columns
    decreases |required|
  {
    if |required| == 0 then []
    else if required[0] in columns then Missing(required[1..], columns)
    else [required[0]] + Missing(required[1..], columns)
  }

  /** The table without its link and title columns (lines 62-69): the other columns and all rows stay. */
  function WithoutLinkAndTitle(t: Table): (r: Table)
    requires WellFormed(t)
    ensures WellFormed(r)
    ensures r.columns == Without(Without(t.columns, ReviewLink), ReviewTitle)
    ensures ReviewLink !in r.columns && ReviewTitle !in r.columns
    ensures forall c :: c in r.columns <==> c in t.columns && c != ReviewLink && c != ReviewTitle
    ensures |r.rows| == |t.rows|
    ensures forall i, c :: 0 <= i < |r.rows| && c in r.columns ==> CellAt(r, i, c) == CellAt(t, i, c)
  {
    var d := DropColumn(t, ReviewLink);
    var r := DropColumn(d, ReviewTitle);
    assert forall i, c :: 0 <= i < |r.rows| && c in r.columns ==> CellAt(r, i, c) == CellAt(d, i, c);
    r
  }

  /**
   * Lines 62-74: drop the link and title columns, then keep the rows whose
   * review and reply are both usable. A table without a review or a reply
   * column stops the build with the names of the missing columns.
   */
  function Prepare(t: Table): (r: Result<Table, BuildError>)
    requires WellFormed(t)
    ensures r.Failure? <==> ReviewText !in t.columns || ReplyText !in t.columns
    ensures r.Failure? ==> forall c :: c in r.error.names <==> c in [ReviewText, ReplyText] && c !in t.columns
    ensures r.Success? ==> WellFormed(r.value)
    ensures r.Success? ==> r.value.columns == Without(Without(t.columns, ReviewLink), ReviewTitle)
    ensures r.Success? ==> ReviewText in r.value.columns && ReplyText in r.value.columns
    ensures r.Success? ==> ReviewLink !in r.value.columns && ReviewTitle !in r.value.columns
    ensures r.Success? ==> |r.value.rows| <= |t.rows|
    ensures r.Success? ==> forall i :: 0 <= i < |r.value.rows| ==> Usable(CellAt(r.value, i, ReplyText))
    ensures r.Success? ==> forall row :: row in r.value.rows <==> row in WithoutLinkAndTitle(t).rows && UsableRow(r.value.columns, row)
  {
    var d := WithoutLinkAndTitle(t);
    if ReviewText !in d.columns || ReplyText !in d.columns then
      Failure(MissingColumns(Missing([ReviewText, ReplyText], d.columns)))
    else
      var kept := KeepUsable(d.columns, d.rows);
      var p := Table(d.columns, kept);
      assert WellFormed(p) by {
        forall row | row in kept ensures |row| == |d.columns| {
          assert UsableRow(d.columns, row);
        }
      }
      forall i | 0 <= i < |kept| ensures Usable(CellAt(p, i, ReplyText)) {
        assert kept[i] in kept && UsableRow(d.columns, kept[i]);
      }
      Success(p)
  }

  // ---------------------------------------------------------------------------
  // Prompts and completions (lines 77-93)
  // ---------------------------------------------------------------------------

  /** One `col: val` entry of a prompt. */
  datatype Entry = Entry(column: string, cell: Cell)

  function ColumnsOf(es: seq<Entry>): (cs: seq<string>)
    ensures |cs| == |es| && forall i :: 0 <= i < |es| ==> cs[i] == es[i].column
  {
    seq(|es|, i requires 0 <= i < |es| => es[i].column)
  }

  /**
   * `row.drop('Developer Reply Text').items()`: every other column with its
   * cell, in column order.
   */
  function PromptEntries(columns: seq<string>, row: seq<Cell>): (r: seq<Entry>)
    requires |row| == |columns|
    ensures r == [] <==> forall j :: 0 <= j < |columns| ==> columns[j] == ReplyText
    ensures forall k :: 0 <= k < |r| ==> r[k].column != ReplyText && r[k].column in columns && r[k].cell in row
    decreases |columns|
  {
    if |columns| == 0 then []
    else
      var tail := PromptEntries(columns[1..], row[1..]);
      if columns[0] == ReplyText then tail else [Entry(columns[0], row[0])] + tail
  }

  /**
   * A prompt has one entry per column other than the reply, in column order,
   * each holding that column's cell, and no other entry.
   */
  lemma PromptEntriesSpec(columns: seq<string>, row: seq<Cell>)
    requires |row| == |columns|
    ensures ColumnsOf(PromptEntries(columns, row)) == Without(columns, ReplyText)
    ensures forall j :: 0 <= j < |columns| && columns[j] != ReplyText ==> Entry(columns[j], row[j]) in PromptEntries(columns, row)
    ensures forall e :: e in PromptEntries(columns, row) ==> e.column != ReplyText && e.column in columns && e.cell in row
  {
    PromptEntriesColumns(columns, row);
    forall j | 0 <= j < |columns| && columns[j] != ReplyText
      ensures Entry(columns[j], row[j]) in PromptEntries(columns, row)
    {
      PromptEntriesCover(columns, row, j);
    }
    forall e | e in PromptEntries(columns, row)
      ensures e.column != ReplyText && e.column in columns && e.cell in row
    {
      PromptEntriesFrom(columns, row, e);
    }
  }

  lemma {:induction false} PromptEntriesColumns(columns: seq<string>, row: seq<Cell>)
    requires |row| == |columns|
    ensures ColumnsOf(PromptEntries(columns, row)) == Without(columns, ReplyText)
    decreases |columns|
  {
    if |columns| > 0 {
      var tail := PromptEntries(columns[1..], row[1..]);
      PromptEntriesColumns(columns[1..], row[1..]);
      if columns[0] != ReplyText {
        assert ColumnsOf([Entry(columns[0], row[0])] + tail) == [columns[0]] + ColumnsOf(tail);
      }
    }
  }

  lemma {:induction false} PromptEntriesCover(columns: seq<string>, row: seq<Cell>, j: nat)
    requires |row| == |columns| && j < |columns| && columns[j] != ReplyText
    ensures Entry(columns[j], row[j]) in PromptEntries(columns, row)
    decreases j
  {
    if j > 0 {
      assert columns[1..][j - 1] == columns[j] && row[1..][j - 1] == row[j];
      PromptEntriesCover(columns[1..], row[1..], j - 1);
    }
  }

  lemma {:induction false} PromptEntriesFrom(columns: seq<string>, row: seq<Cell>, e: Entry)
    requires |row| == |columns| && e in PromptEntries(columns, row)
    ensures e.column != ReplyText && e.column in columns && e.cell in row
    decreases |columns|
  {
    var tail := PromptEntries(columns[1..], row[1..]);
    if columns[0] == ReplyText || e != Entry(columns[0], row[0]) {
      assert e in tail;
      PromptEntriesFrom(columns[1..], row[1..], e);
      assert e.column in columns[1..] && e.cell in row[1..];
    }
  }

  /** The cell of an entry is the row's cell under the entry's column. */
  lemma EntryCells(columns: seq<string>, row: seq<Cell>)
    requires |row| == |columns| && Distinct(columns)
    ensures forall e :: e in PromptEntries(columns, row) ==> e.column in columns && e.cell == CellIn(columns, row, e.column)
  {
    var es := PromptEntries(columns, row);
    forall e | e in es ensures e.column in columns && e.cell == CellIn(columns, row, e.column) {
      EntryCell(columns, row, e);
    }
  }

  lemma {:induction false} EntryCell(columns: seq<string>, row: seq<Cell>, e: Entry)
    requires |row| == |columns| && Distinct(columns)
    requires e in PromptEntries(columns, row)
    ensures e.column in columns && e.cell == CellIn(columns, row, e.column)
    decreases |columns|
  {
    var head := Entry(columns[0], row[0]);
    var tail := PromptEntries(columns[1..], row[1..]);
    assert PromptEntries(columns, row) == if columns[0] == ReplyText then tail else [head] + tail;
    if columns[0] != ReplyText && e == head {
      IndexOfDistinct(columns, 0);
    } else {
      assert e in tail;
      DistinctTail(columns);
      EntryCell(columns[1..], row[1..], e);
      ShiftedCell(columns, row, e.column);
    }
  }

  /** Past the first column, a cell is found the same way in the row and in its tail. */
  lemma ShiftedCell(columns: seq<string>, row: seq<Cell>, name: string)
    requires |row| == |columns| > 0 && Distinct(columns) && name in columns[1..]
    ensures name in columns && CellIn(columns, row, name) == CellIn(columns[1..], row[1..], name)
  {
    var m := IndexOf(columns[1..], name).value;
    assert columns[m + 1] == name;
    IndexOfDistinct(columns, m + 1);
  }

  lemma DistinctTail(names: seq<string>)
    requires |names| > 0 && Distinct(names)
    ensures Distinct(names[1..])
  {
    forall i, j | 0 <= i < j < |names| - 1 ensures names[1..][i] != names[1..][j] {
      assert names[1..][i] == names[i + 1] && names[1..][j] == names[j + 1];
    }
  }

  function Line(e: Entry): string {
    e.column + ": " + Show(e.cell)
  }

  function Lines(es: seq<Entry>): (ls: seq<string>)
    ensures |ls| == |es| && forall i :: 0 <= i < |es| ==> ls[i] == Line(es[i])
  {
    seq(|es|, i requires 0 <= i < |es| => Line(es[i]))
  }

  /** `create_prompt`: the entries' lines joined by newlines. */
  function CreatePrompt(columns: seq<string>, row: seq<Cell>): (r: string)
    requires |row| == |columns|
    ensures r == "" <==> forall j :: 0 <= j < |columns| ==> columns[j] == ReplyText
  {
    Join(Lines(PromptEntries(columns, row)), "\n")
  }

  /**
   * When no column name and no value holds a newline, splitting a prompt at
   * its newlines gives back its lines, one per prompt column.
   */
  lemma PromptLinesRoundTrip(columns: seq<string>, row: seq<Cell>)
    requires |row| == |columns|
    requires exists j :: 0 <= j < |columns| && columns[j] != ReplyText
    requires forall c :: c in columns ==> Avoids(c, {'\n'})
    requires forall j :: 0 <= j < |columns| && columns[j] != ReplyText ==> Avoids(Show(row[j]), {'\n'})
    ensures Split(CreatePrompt(columns, row), {'\n'}) == Lines(PromptEntries(columns, row))
  {
    var es := PromptEntries(columns, row);
    var ls := Lines(es);
    var j :| 0 <= j < |columns| && columns[j] != ReplyText;
    PromptEntriesCover(columns, row, j);
    forall k | 0 <= k < |ls| ensures Avoids(ls[k], {'\n'}) {
      assert es[k] in es;
      EntryFromColumn(columns, row, es[k]);
      LineAvoidsNewline(es[k]);
    }
    SplitJoin(ls, {'\n'}, '\n');
  }

  /** Every entry of a prompt is some non-reply column paired with that column's own cell. */
  lemma {:induction false} EntryFromColumn(columns: seq<string>, row: seq<Cell>, e: Entry)
    requires |row| == |columns| && e in PromptEntries(columns, row)
    ensures exists j :: 0 <= j < |columns| && columns[j] != ReplyText && e == Entry(columns[j], row[j])
    decreases |columns|
  {
    var tail := PromptEntries(columns[1..], row[1..]);
    if columns[0] != ReplyText && e == Entry(columns[0], row[0]) {
      assert e == Entry(columns[0], row[0]);
    } else {
      assert e in tail;
      EntryFromColumn(columns[1..], row[1..], e);
      var j :| 0 <= j < |columns| - 1 && columns[1..][j] != ReplyText && e == Entry(columns[1..][j], row[1..][j]);
      assert columns[j + 1] != ReplyText && e == Entry(columns[j + 1], row[j + 1]);
    }
  }

  lemma LineAvoidsNewline(e: Entry)
    requires Avoids(e.column, {'\n'}) && Avoids(Show(e.cell), {'\n'})
    ensures Avoids(Line(e), {'\n'})
  {
    var l := Line(e);
    forall i | 0 <= i < |l| ensures l[i] != '\n' {
      if i < |e.column| {
        assert l[i] == e.column[i];
      } else if i >= |e.column| + 2 {
        assert l[i] == Show(e.cell)[i - |e.column| - 2];
      }
    }
  }

  /** A training example. */
  datatype Example = Example(prompt: string, completion: string)

  /**
   * Lines 84-93 on a prepared table: one example per row, its prompt built
   * from the row and its completion the row's reply as text, stripped.
   */
  function ToExamples(t: Table): (ex: seq<Example>)
    requires WellFormed(t) && ReplyText in t.columns
    ensures |ex| == |t.rows| && ExamplesOfRows(t.columns, t.rows, ex)
    ensures forall i :: 0 <= i < |t.rows| ==> ex[i].prompt == CreatePrompt(t.columns, t.rows[i])
    ensures forall i :: 0 <= i < |t.rows| ==> ex[i].completion == Trim(Python, Show(CellAt(t, i, ReplyText)))
    ensures forall i :: 0 <= i < |t.rows| && Usable(CellAt(t, i, ReplyText)) ==>
              ex[i].completion != "" && Trim(Python, ex[i].completion) == ex[i].completion
  {
    var ex := seq(|t.rows|, i requires 0 <= i < |t.rows| => assert t.rows[i] in t.rows; ExampleOf(t.columns, t.rows[i]));
    assert forall i :: 0 <= i < |t.rows| ==> t.rows[i] in t.rows && ex[i] == ExampleOf(t.columns, t.rows[i]);
    ex
  }

  /** `ex` holds, in order, the example of each of `rows`. */
  predicate ExamplesOfRows(columns: seq<string>, rows: seq<seq<Cell>>, ex: seq<Example>)
    requires ReplyText in columns && forall r :: r in rows ==> |r| == |columns|
  {
    |ex| == |rows| && forall i :: 0 <= i < |rows| ==> ex[i] == ExampleOf(columns, rows[i])
  }

  /** The example one row gives. */
  function ExampleOf(columns: seq<string>, row: seq<Cell>): (e: Example)
    requires |row| == |columns| && ReplyText in columns
    ensures e.prompt == CreatePrompt(columns, row)
    ensures e.completion == Trim(Python, Show(CellIn(columns, row, ReplyText)))
    ensures Usable(CellIn(columns, row, ReplyText)) ==> e.completion != "" && Trim(Python, e.completion) == e.completion
  {
    var reply := Show(CellIn(columns, row, ReplyText));
    TrimIdempotent(Python, reply);
    Example(CreatePrompt(columns, row), Trim(Python, reply))
  }

  /** The whole builder, lines 62-93. */
  function BuildTrainingData(t: Table): (r: Result<seq<Example>, BuildError>)
    requires WellFormed(t)
    ensures r.Success? <==> ReviewText in t.columns && ReplyText in t.columns
    ensures r.Success? ==> |r.value| <= |t.rows|
    ensures r.Success? ==> forall e :: e in r.value ==> e.completion != "" && Trim(Python, e.completion) == e.completion
  {
    match Prepare(t)
    case Failure(err) => Failure(err)
    case Success(p) =>
      Success(ToExamples(p))
  }

  /**
   * In a successful build, every prompt is made of the prepared table's
   * columns other than the reply, each with the row's own cell: the link,
   * title and reply columns never reach a prompt, and the review text
   * always does.
   */
  lemma PromptsSkipDroppedColumns(t: Table)
    requires WellFormed(t) && BuildTrainingData(t).Success?
    ensures var p := Prepare(t).value;
      && |BuildTrainingData(t).value| == |p.rows|
      && forall i :: 0 <= i < |p.rows| ==>
           && BuildTrainingData(t).value[i].prompt == CreatePrompt(p.columns, p.rows[i])
           && BuildTrainingData(t).value[i].completion == Trim(Python, Show(CellAt(p, i, ReplyText)))
           && (forall e :: e in PromptEntries(p.columns, p.rows[i]) ==>
                 && e.column !in {ReviewLink, ReviewTitle, ReplyText}
                 && e.column in p.columns
                 && e.cell == CellAt(p, i, e.column))
           && Entry(ReviewText, CellAt(p, i, ReviewText)) in PromptEntries(p.columns, p.rows[i])
  {
    var p := Prepare(t).value;
    forall i | 0 <= i < |p.rows|
      ensures forall e :: e in PromptEntries(p.columns, p.rows[i]) ==>
                && e.column !in {ReviewLink, ReviewTitle, ReplyText}
                && e.column in p.columns
                && e.cell == CellAt(p, i, e.column)
      ensures Entry(ReviewText, CellAt(p, i, ReviewText)) in PromptEntries(p.columns, p.rows[i])
    {
      assert p.rows[i] in p.rows;
      EntryCells(p.columns, p.rows[i]);
      PromptEntriesSpec(p.columns, p.rows[i]);
      var k := IndexOf(p.columns, ReviewText).value;
      assert p.columns[k] == ReviewText;
      PromptEntriesCover(p.columns, p.rows[i], k);
    }
  }

  // ---------------------------------------------------------------------------
  // Row order
  // ---------------------------------------------------------------------------

  /** Dropping a column works row by row. */
  lemma DropColumnAppend(columns: seq<string>, a: seq<seq<Cell>>, b: seq<seq<Cell>>, name: string)
    requires WellFormed(Table(columns, a + b))
    ensures WellFormed(Table(columns, a)) && WellFormed(Table(columns, b))
    ensures DropColumn(Table(columns, a + b), name).rows
         == DropColumn(Table(columns, a), name).rows + DropColumn(Table(columns, b), name).rows
  {
    assert forall r :: r in a ==> r in a + b;
    assert forall r :: r in b ==> r in a + b;
    var x := DropColumn(Table(columns, a + b), name).rows;
    var y := DropColumn(Table(columns, a), name).rows;
    var z := DropColumn(Table(columns, b), name).rows;
    match IndexOf(columns, name)
    case None =>
    case Some(k) =>
      forall i | 0 <= i < |x| ensures x[i] == (y + z)[i] {
        if i < |a| {
          assert (a + b)[i] == a[i];
        } else {
          assert (a + b)[i] == b[i - |a|];
        }
      }
  }

  /** Removing the link and title columns works row by row. */
  lemma WithoutLinkAndTitleAppend(columns: seq<string>, a: seq<seq<Cell>>, b: seq<seq<Cell>>)
    requires WellFormed(Table(columns, a + b))
    ensures WellFormed(Table(columns, a)) && WellFormed(Table(columns, b))
    ensures WithoutLinkAndTitle(Table(columns, a + b)).rows == WithoutLinkAndTitle(Table(columns, a)).rows + WithoutLinkAndTitle(Table(columns, b)).rows
  {
    DropColumnAppend(columns, a, b, ReviewLink);
    var c1 := Without(columns, ReviewLink);
    var a1 := DropColumn(Table(columns, a), ReviewLink).rows;
    var b1 := DropColumn(Table(columns, b), ReviewLink).rows;
    assert DropColumn(Table(columns, a + b), ReviewLink) == Table(c1, a1 + b1);
    assert DropColumn(Table(columns, a), ReviewLink) == Table(c1, a1);
    assert DropColumn(Table(columns, b), ReviewLink) == Table(c1, b1);
    DropColumnAppend(c1, a1, b1, ReviewTitle);
  }

  /** Building examples from a prepared table works row by row. */
  lemma ToExamplesAppend(columns: seq<string>, a: seq<seq<Cell>>, b: seq<seq<Cell>>)
    requires WellFormed(Table(columns, a + b)) && ReplyText in columns
    ensures WellFormed(Table(columns, a)) && WellFormed(Table(columns, b))
    ensures ToExamples(Table(columns, a + b)) == ToExamples(Table(columns, a)) + ToExamples(Table(columns, b))
  {
    assert forall r :: r in a ==> r in a + b;
    assert forall r :: r in b ==> r in a + b;
    ExamplesConcat(columns, a, b, ToExamples(Table(columns, a + b)),
                   ToExamples(Table(columns, a)), ToExamples(Table(columns, b)));
  }

  /** Examples built row by row from `a + b` are those built from `a` followed by those built from `b`. */
  lemma ExamplesConcat(columns: seq<string>, a: seq<seq<Cell>>, b: seq<seq<Cell>>,
                       x: seq<Example>, y: seq<Example>, z: seq<Example>)
    requires ReplyText in columns
    requires forall r :: r in a ==> |r| == |columns|
    requires forall r :: r in b ==> |r| == |columns|
    requires forall r :: r in a + b ==> |r| == |columns|
    requires ExamplesOfRows(columns, a + b, x)
    requires ExamplesOfRows(columns, a, y)
    requires ExamplesOfRows(columns, b, z)
    ensures x == y + z
  {
    ImageConcat(a, b, x, y, z, r requires |r| == |columns| && ReplyText in columns => ExampleOf(columns, r));
  }

  /** The images of `a + b` under `f`, element by element, are those of `a` followed by those of `b`. */
  lemma ImageConcat<T, U>(a: seq<T>, b: seq<T>, x: seq<U>, y: seq<U>, z: seq<U>, f: T --> U)
    requires forall r :: r in a + b ==> f.requires(r)
    requires |x| == |a + b| && forall i :: 0 <= i < |a + b| ==> x[i] == f((a + b)[i])
    requires |y| == |a| && forall i :: 0 <= i < |a| ==> f.requires(a[i]) && y[i] == f(a[i])
    requires |z| == |b| && forall i :: 0 <= i < |b| ==> f.requires(b[i]) && z[i] == f(b[i])
    ensures x == y + z
  {
    forall i | 0 <= i < |x| ensures x[i] == (y + z)[i] {
      if i < |a| {
        assert (a + b)[i] == a[i];
      } else {
        assert (a + b)[i] == b[i - |a|];
      }
    }
  }

  /**
   * One example per kept row, in row order: the examples of a table whose
   * rows are `a` followed by `b` are those of `a` followed by those of `b`.
   */
  lemma {:induction false} BuildTrainingDataAppend(columns: seq<string>, a: seq<seq<Cell>>, b: seq<seq<Cell>>)
    requires WellFormed(Table(columns, a + b))
    requires ReviewText in columns && ReplyText in columns
    ensures WellFormed(Table(columns, a)) && WellFormed(Table(columns, b))
    ensures BuildTrainingData(Table(columns, a + b)).value
         == BuildTrainingData(Table(columns, a)).value + BuildTrainingData(Table(columns, b)).value
  {
    WithoutLinkAndTitleAppend(columns, a, b);
    var d := WithoutLinkAndTitle(Table(columns, a + b));
    var da := WithoutLinkAndTitle(Table(columns, a)).rows;
    var db := WithoutLinkAndTitle(Table(columns, b)).rows;
    assert WithoutLinkAndTitle(Table(columns, a)).columns == d.columns && WithoutLinkAndTitle(Table(columns, b)).columns == d.columns;
    KeepUsableAppend(d.columns, da, db);
    var ka := KeepUsable(d.columns, da);
    var kb := KeepUsable(d.columns, db);
    assert Prepare(Table(columns, a + b)).value == Table(d.columns, ka + kb);
    assert Prepare(Table(columns, a)).value == Table(d.columns, ka);
    assert Prepare(Table(columns, b)).value == Table(d.columns, kb);
    ToExamplesAppend(d.columns, ka, kb);
  }
}
