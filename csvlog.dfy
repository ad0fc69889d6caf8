/**
 * `write_log_row` (monitor.py, lines 101-109): the CSV log `data/status.csv`
 * as a sequence of rows, absent until the first write.
 */
module CsvLog {
  import opened Wrappers

  /** One CSV field: the writer receives strings and, for the port column, integers. */
  datatype Cell = Text(text: string) | Int(value: int)

  /** One CSV line. */
  type Row = seq<Cell>

  /** The 7-column header written when the file is created. */
  const Header: Row :=
    [Text("DataHora"), Text("Host"), Text("Type"), Text("IP"), Text("Porta"), Text("Status"), Text("Latencia")]

  /** The file after one `write_log_row(row)`; `None` stands for "no file". */
  function Appended(file: Option<seq<Row>>, row: Row): seq<Row>
  {
    match file
    case None => [Header, row]
    case Some(lines) => lines + [row]
  }

  /** The file after writing `rows` one call at a time, in order. */
  function AppendAll(file: Option<seq<Row>>, rows: seq<Row>): Option<seq<Row>>
    decreases |rows|
  {
    if rows == [] then file
    else Some(Appended(AppendAll(file, rows[..|rows| - 1]), rows[|rows| - 1]))
  }

  /** Writing to an existing file keeps what it held and adds the rows after it. */
  lemma {:induction false} AppendAllToExisting(lines: seq<Row>, rows: seq<Row>)
    ensures AppendAll(Some(lines), rows) == Some(lines + rows)
    decreases |rows|
  {
    if rows != [] {
      var init := rows[..|rows| - 1];
      AppendAllToExisting(lines, init);
      assert rows == init + [rows[|rows| - 1]];
      assert lines + init + [rows[|rows| - 1]] == lines + rows;
    } else {
      assert lines + rows == lines;
    }
  }

  /** Writing to no file: nothing appears for no rows, and otherwise the header and then the rows. */
  lemma {:induction false} AppendAllToFresh(rows: seq<Row>)
    ensures rows == [] ==> AppendAll(None, rows) == None
    ensures rows != [] ==> AppendAll(None, rows) == Some([Header] + rows)
    decreases |rows|
  {
    if rows != [] {
      var init := rows[..|rows| - 1];
      if init == [] {
        assert AppendAll(None, init) == None;
        assert AppendAll(None, rows) == Some([Header, rows[0]]);
        assert [Header] + rows == [Header, rows[0]];
      } else {
        AppendAllToFresh(init);
        assert [Header] + init + [rows[|rows| - 1]] == [Header] + rows;
      }
    }
  }

  /** A file holding the writes of `rows[..j]`, after one more write of `rows[j]`, holds those of `rows[..j + 1]`. */
  lemma AppendAllStep(file: Option<seq<Row>>, rows: seq<Row>, j: nat, before: Option<seq<Row>>, after: Option<seq<Row>>)
    requires j < |rows|
    requires before == AppendAll(file, rows[..j])
    requires after == Some(Appended(before, rows[j]))
    ensures after == AppendAll(file, rows[..j + 1])
  {
    assert rows[..j + 1][..j] == rows[..j];
  }

  /** Two batches of writes are one batch of writes. */
  lemma {:induction false} AppendAllConcat(file: Option<seq<Row>>, a: seq<Row>, b: seq<Row>)
    ensures AppendAll(file, a + b) == AppendAll(AppendAll(file, a), b)
    decreases |b|
  {
    if b == [] {
      assert a + b == a;
    } else {
      var init := b[..|b| - 1];
      assert (a + b)[..|a + b| - 1] == a + init;
      assert (a + b)[|a + b| - 1] == b[|b| - 1];
      AppendAllConcat(file, a, init);
    }
  }

  /**
   * Any number of writes to a fresh log, none of them a copy of the header:
   * the header is the first line and occurs exactly once.
   */
  lemma HeaderOnce(rows: seq<Row>)
    requires rows != [] && Header !in rows
    ensures AppendAll(None, rows).Some?
    ensures AppendAll(None, rows).value[0] == Header
    ensures multiset(AppendAll(None, rows).value)[Header] == 1
  {
    AppendAllToFresh(rows);
    assert multiset(rows)[Header] == 0;
    assert multiset([Header] + rows) == multiset([Header]) + multiset(rows);
  }

  /** The log file on disk. */
  class LogFile {
    /** The rows of the file, or `None` while there is no file. */
    var lines: Option<seq<Row>>

    /** No log file yet. */
    constructor Fresh()
      ensures lines == None
    {
      lines := None;
    }

    /** A log file that already holds `content` (possibly nothing). */
    constructor Existing(content: seq<Row>)
      ensures lines == Some(content)
    {
      lines := Some(content);
    }

    /**
     * `write_log_row(row)`: the header goes first exactly when the file did not
     * exist before the call; the old content stays and one data row follows.
     */
    method WriteRow(row: Row)
      modifies this
      ensures old(lines).None? ==> lines == Some([Header, row])
      ensures old(lines).Some? ==> lines == Some(old(lines).value + [row])
      ensures lines == Some(Appended(old(lines), row))
    {
      var fileExists := lines.Some?;
      var content := if fileExists then lines.value else [];
      if !fileExists {
        content := content + [Header];
      }
      content := content + [row];
      assert !fileExists ==> content == [Header, row];
      lines := Some(content);
    }
  }
}
