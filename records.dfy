/**
 * The processing step of app.py that runs when the form is submitted: the
 * pasted text is cut down to its JSON array, parsed into a list of records,
 * tabulated as a data frame whose columns are the keys found in any record,
 * checked for the 'frente' (front) and 'verso' (back) columns, and those two
 * columns are rewritten in place by the markup conversion.
 */
module Records {
  import opened JsonExtract
  import opened Markdown

  /** One JSON object of the parsed list: its keys and their values. */
  type Record = map<string, Value>

  /** The column holding the front of each flash card. */
  const Front := "frente"

  /** The column holding the back of each flash card. */
  const Back := "verso"

  /** Some record of `data` has the key: the data frame built from `data` then has that column. */
  predicate HasColumn(data: seq<Record>, key: string) {
    exists i :: 0 <= i < |data| && key in data[i]
  }

  /** The columns of the data frame built from a list of records: every key of every record. */
  function Columns(data: seq<Record>): (cols: set<string>)
    ensures forall k :: k in cols <==> HasColumn(data, k)
    decreases |data|
  {
    if data == [] then {}
    else
      var rest := Columns(data[1..]);
      assert forall k :: HasColumn(data[1..], k) ==> HasColumn(data, k) by {
        forall k | HasColumn(data[1..], k)
          ensures HasColumn(data, k)
        {
          var i :| 0 <= i < |data[1..]| && k in data[1..][i];
          assert k in data[i + 1];
        }
      }
      assert forall k :: HasColumn(data, k) ==> k in data[0] || HasColumn(data[1..], k) by {
        forall k | HasColumn(data, k) && k !in data[0]
          ensures HasColumn(data[1..], k)
        {
          var i :| 0 <= i < |data| && k in data[i];
          assert i > 0 && data[1..][i - 1] == data[i];
        }
      }
      data[0].Keys + rest
  }

  /** A cell of the data frame: the record's value, or a missing value (NaN) where the record lacks the key. */
  function Cell(r: Record, key: string): Value {
    if key in r then r[key] else Missing
  }

  /** The cell a converted frame holds: the front and back columns converted, every other column as read. */
  function ConvertedCell(r: Record, key: string): Value {
    if key == Front || key == Back then MarkdownToHtml(Cell(r, key)) else Cell(r, key)
  }

  /**
   * `rows` is the converted table of `data`: one row per record, in order,
   * each with exactly the frame's columns, the front and back cells converted
   * and all other cells unchanged.
   */
  ghost predicate ConvertedFrom(data: seq<Record>, rows: seq<Record>) {
    && |rows| == |data|
    && (forall i :: 0 <= i < |rows| ==> rows[i].Keys == Columns(data))
    && (forall i, k :: 0 <= i < |rows| && k in Columns(data) ==> rows[i][k] == ConvertedCell(data[i], k))
  }

  /** A data frame: its set of columns and its rows, each row holding a cell per column. */
  class Frame {
    var columns: set<string>
    var rows: seq<Record>

    /** Every row has exactly the frame's columns. */
    ghost predicate Valid()
      reads this
    {
      forall i :: 0 <= i < |rows| ==> rows[i].Keys == columns
    }

    /** `pd.DataFrame(data)`: one row per record, missing keys filled with a missing value. */
    constructor (data: seq<Record>)
      ensures Valid() && columns == Columns(data) && |rows| == |data|
      ensures forall i, k :: 0 <= i < |rows| && k in columns ==> rows[i][k] == Cell(data[i], k)
    {
      var cols := Columns(data);
      columns := cols;
      rows := seq(|data|, i requires 0 <= i < |data| => map k | k in cols :: Cell(data[i], k));
    }

    /**
     * `df[key] = df[key].apply(markdown_to_html)`: the column is converted in
     * every row; no other cell, no column and no row count changes.
     */
    method ApplyMarkdown(key: string)
      requires Valid() && key in columns
      modifies this
      ensures Valid() && columns == old(columns) && |rows| == |old(rows)|
      ensures forall i :: 0 <= i < |rows| ==> rows[i] == old(rows)[i][key := MarkdownToHtml(old(rows)[i][key])]
    {
      var old_rows := rows;
      rows := seq(|old_rows|, i requires 0 <= i < |old_rows| => old_rows[i][key := MarkdownToHtml(old_rows[i][key])]);
    }
  }

  /** Converting the front column and then the back column of a freshly built frame gives the converted table. */
  lemma ConvertedAfterBoth(data: seq<Record>, cols: set<string>, table: seq<Record>, fronts: seq<Record>, rows: seq<Record>)
    requires cols == Columns(data) && Front in cols && Back in cols
    requires |table| == |data| && |fronts| == |table| && |rows| == |fronts|
    requires forall i :: 0 <= i < |table| ==> table[i].Keys == cols
    requires forall i, k :: 0 <= i < |table| && k in cols ==> table[i][k] == Cell(data[i], k)
    requires forall i :: 0 <= i < |fronts| ==> fronts[i] == table[i][Front := MarkdownToHtml(table[i][Front])]
    requires forall i :: 0 <= i < |rows| ==> rows[i] == fronts[i][Back := MarkdownToHtml(fronts[i][Back])]
    ensures ConvertedFrom(data, rows)
  {
    forall i | 0 <= i < |rows|
      ensures rows[i].Keys == cols
      ensures forall k :: k in cols ==> rows[i][k] == ConvertedCell(data[i], k)
    {
      ConvertedRow(data[i], cols, table[i], fronts[i], rows[i]);
    }
  }

  /** One row: converting its front cell and then its back cell gives the converted record. */
  lemma ConvertedRow(d: Record, cols: set<string>, t: Record, f: Record, r: Record)
    requires Front in cols && Back in cols && t.Keys == cols
    requires forall k :: k in cols ==> t[k] == Cell(d, k)
    requires f == t[Front := MarkdownToHtml(t[Front])]
    requires r == f[Back := MarkdownToHtml(f[Back])]
    ensures r.Keys == cols
    ensures forall k :: k in cols ==> r[k] == ConvertedCell(d, k)
  {
    assert f.Keys == cols;
  }

  /**
   * In a converted table every text cell of the front and back columns lies
   * on one line, each line break having become `<br>`, so that one card is
   * one line of the exported file.
   */
  lemma ConvertedCardsOnOneLine(data: seq<Record>, rows: seq<Record>, i: int, k: string)
    requires ConvertedFrom(data, rows) && 0 <= i < |rows|
    requires (k == Front || k == Back) && k in Columns(data)
    ensures rows[i][k].Str? ==> '\n' !in rows[i][k].text
    ensures !Cell(data[i], k).Str? ==> rows[i][k] == Cell(data[i], k)
  {
    var v := Cell(data[i], k);
    assert rows[i][k] == ConvertedCell(data[i], k) == MarkdownToHtml(v);
  }

  /** What `json.loads` makes of the extracted text: a list of records, or the decoder's error message. */
  datatype Parsed = Decoded(data: seq<Record>) | DecodeError(detail: string)

  /** What the user is shown after submitting the form. */
  datatype Outcome =
    | NothingPasted
    | InvalidJson(detail: string)
    | MissingColumns
    | Converted(count: nat, rows: seq<Record>)

  /**
   * The conversion of a parsed list of records: the frame is built, and when
   * it has both the front and the back column those are converted in place;
   * otherwise the missing-columns error is reported.
   */
  method Convert(data: seq<Record>) returns (r: Outcome)
    ensures r.MissingColumns? <==> !(HasColumn(data, Front) && HasColumn(data, Back))
    ensures r.MissingColumns? || r.Converted?
    ensures r.Converted? ==> r.count == |data| && ConvertedFrom(data, r.rows)
  {
    var frame := new Frame(data);
    var cols := frame.columns;
    if Front in cols && Back in cols {
      var table := frame.rows;
      frame.ApplyMarkdown(Front);
      var fronts := frame.rows;
      frame.ApplyMarkdown(Back);
      ConvertedAfterBoth(data, cols, table, fronts, frame.rows);
      r := Converted(|frame.rows|, frame.rows);
    } else {
      r := MissingColumns;
    }
  }

  /**
   * The submit handler: nothing pasted is a warning; otherwise the JSON array
   * is cut out of the pasted text and decoded by `parse` (standing for
   * `json.loads`), a decoding error is reported with its message, and a
   * decoded list is converted.
   */
  method Process(rawInput: string, parse: string -> Parsed) returns (r: Outcome)
    ensures r.NothingPasted? <==> rawInput == []
    ensures rawInput != [] ==> match parse(ExtractJsonFromText(rawInput))
      case DecodeError(detail) => r == InvalidJson(detail)
      case Decoded(data) =>
        && (r.MissingColumns? <==> !(HasColumn(data, Front) && HasColumn(data, Back)))
        && (r.MissingColumns? || r.Converted?)
        && (r.Converted? ==> r.count == |data| && ConvertedFrom(data, r.rows))
  {
    if rawInput == [] {
      r := NothingPasted;
    } else {
      var content := ExtractJsonFromText(rawInput);
      match parse(content)
      case DecodeError(detail) =>
        r := InvalidJson(detail);
      case Decoded(data) =>
        r := Convert(data);
    }
  }
}
