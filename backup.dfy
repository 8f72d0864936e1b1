/**
 * The backup log `log/backup_log.csv`: the append-only file of entries that
 * the tracker reads back at start-up. A file is a sequence of CSV rows, each
 * row a sequence of fields; `None` stands for a file that does not exist.
 */
module Backup {
  import opened Wrappers
  import opened Text

  /** One recorded player: the age, whether voice chat is used, and when it was recorded. */
  datatype Entry = Entry(age: int, vc: bool, timestamp: string)

  type Row = seq<string>

  /** The header line written when the log file is created. */
  const Header: Row := ["Age", "VC", "Timestamp"]

  /** What a missing timestamp turns into wherever the program formats it. */
  const NoneText: string := "None"

  function VcText(vc: bool): (r: string)
    ensures r == "Yes" <==> vc
  {
    if vc then "Yes" else "No"
  }

  /** The CSV row that recording `e` appends to the log. */
  function DataRow(e: Entry): (r: Row)
    ensures |r| == |Header|
  {
    [Str(e.age), VcText(e.vc), e.timestamp]
  }

  /** The rows that recording `es`, in order, appends to the log. */
  function DataRows(es: seq<Entry>): (r: seq<Row>)
    ensures |r| == |es|
    ensures forall i :: 0 <= i < |es| ==> r[i] == DataRow(es[i])
  {
    if es == [] then [] else DataRows(es[..|es| - 1]) + [DataRow(es[|es| - 1])]
  }

  /**
   * What looking up a column of a row yields under `csv.DictReader`: the
   * field, the reader's `restval` (Python's `None`) for a column the row is
   * too short to reach, or a `KeyError` for a column the header does not name.
   */
  datatype Field = Present(text: string) | RestVal | KeyMissing

  function LastIndexOf(xs: seq<string>, x: string): (i: nat)
    requires x in xs
    ensures i < |xs| && xs[i] == x
    ensures forall j :: i < j < |xs| ==> xs[j] != x
  {
    if xs[|xs| - 1] == x then |xs| - 1 else LastIndexOf(xs[..|xs| - 1], x)
  }

  /**
   * `row[key]` for the dictionary `csv.DictReader` builds: header names are
   * zipped with the fields (a later duplicate name wins), then every name
   * past the end of a short row is set to `restval`. Either way the value is
   * decided by the key's last column: its field when the row reaches it,
   * `restval` otherwise.
   */
  function Lookup(header: Row, row: Row, key: string): (f: Field)
    ensures f.KeyMissing? <==> key !in header
    ensures f.RestVal? <==> exists i :: |row| <= i < |header| && header[i] == key
    ensures f.Present? ==>
      exists i :: 0 <= i < |row| && 0 <= i < |header| && header[i] == key && f.text == row[i]
        && forall j :: i < j < |header| ==> header[j] != key
  {
    if key !in header then KeyMissing
    else
      var i := LastIndexOf(header, key);
      if i < |row| then Present(row[i]) else RestVal
  }

  /** How the loading loop treats one row of the file after the header. */
  datatype RowOutcome =
    | Blank             // an empty line, which the reader passes over
    | Skipped           // a ValueError or KeyError, caught by the loop
    | Stopped           // int(None) raises TypeError, caught only outside the loop
    | Parsed(entry: Entry)

  /**
   * Reading one row into an entry, as the loading loop does. An empty line
   * is passed over; a row too short to reach the `Age` column stops the
   * loop; a parsed row has an `Age` field that `int()` reads as the entry's
   * age, and a header naming the other two columns.
   */
  function ReadRow(header: Row, row: Row): (r: RowOutcome)
    ensures r.Blank? <==> row == []
  {
    if row == [] then Blank
    else
      match Lookup(header, row, "Age")
      case KeyMissing => Skipped
      case RestVal => Stopped
      case Present(a) =>
        match ParseInt(a)
        case None => Skipped
        case Some(age) =>
          var vc := Lookup(header, row, "VC");
          var ts := Lookup(header, row, "Timestamp");
          if vc.KeyMissing? || ts.KeyMissing? then Skipped
          else Parsed(Entry(age, vc == Present("Yes"), if ts.Present? then ts.text else NoneText))
  }

  /** The state of the loading loop: entries read so far, and whether the loop was abandoned. */
  datatype Scan = Scan(entries: seq<Entry>, stopped: bool)

  /** One turn of the loading loop; `ScanStepSpec` states it in terms of the row. */
  function ScanStep(header: Row, prev: Scan, row: Row): (next: Scan)
    ensures |prev.entries| <= |next.entries| <= |prev.entries| + 1
  {
    if prev.stopped then prev
    else
      match ReadRow(header, row)
      case Stopped => Scan(prev.entries, true)
      case Parsed(e) => Scan(prev.entries + [e], false)
      case _ => prev
  }

  /** `ReadRow` in terms of the header and the row's fields. */
  lemma ReadRowSpec(header: Row, row: Row)
    ensures var r := ReadRow(header, row);
      && (r.Stopped? <==> row != [] && exists i :: |row| <= i < |header| && header[i] == "Age")
      && (r.Parsed? ==>
            && "VC" in header && "Timestamp" in header
            && exists i :: 0 <= i < |row| && 0 <= i < |header| && header[i] == "Age" && ParseInt(row[i]) == Some(r.entry.age))
      && (r.Skipped? ==>
            || "Age" !in header || "VC" !in header || "Timestamp" !in header
            || exists i :: 0 <= i < |row| && 0 <= i < |header| && header[i] == "Age" && ParseInt(row[i]).None?)
  {
  }

  /**
   * One turn of the loop in terms of the row: the loop stops exactly on a
   * non-empty row too short to reach the `Age` column, and an entry it adds
   * has the age `int()` reads from that column.
   */
  lemma ScanStepSpec(header: Row, prev: Scan, row: Row)
    ensures var next := ScanStep(header, prev, row);
      && prev.entries <= next.entries && |next.entries| <= |prev.entries| + 1
      && (prev.stopped ==> next == prev)
      && (!prev.stopped ==> (next.stopped <==> row != [] && exists i :: |row| <= i < |header| && header[i] == "Age"))
      && (|next.entries| > |prev.entries| ==>
            exists i :: 0 <= i < |row| && 0 <= i < |header| && header[i] == "Age"
              && ParseInt(row[i]) == Some(next.entries[|prev.entries|].age))
  {
    ReadRowSpec(header, row);
  }

  /** Reading `rows` (the lines after the header) one by one, in file order. */
  function ScanRows(header: Row, rows: seq<Row>): (r: Scan)
  {
    if rows == [] then Scan([], false)
    else ScanStep(header, ScanRows(header, rows[..|rows| - 1]), rows[|rows| - 1])
  }

  /** Each row yields at most one entry. */
  lemma {:induction false} ScanRowsBound(header: Row, rows: seq<Row>)
    ensures |ScanRows(header, rows).entries| <= |rows|
    decreases |rows|
  {
    if rows != [] {
      ScanRowsBound(header, rows[..|rows| - 1]);
    }
  }

  /** The entries loaded from the backup file; the first row of the file is its header. */
  function Loaded(file: Option<seq<Row>>): (es: seq<Entry>)
  {
    match file
    case None => []
    case Some(rows) => if rows == [] then [] else ScanRows(rows[0], rows[1..]).entries
  }

  /** Loading gives fewer entries than the file has rows, since the header yields none. */
  lemma LoadedBound(file: Option<seq<Row>>)
    ensures file.Some? && file.value != [] ==> |Loaded(file)| < |file.value|
  {
    if file.Some? && file.value != [] {
      ScanRowsBound(file.value[0], file.value[1..]);
    }
  }

  /** A file that further data rows can be appended to so that loading reads them all back. */
  predicate Appendable(file: Option<seq<Row>>)
  {
    match file
    case None => true
    case Some(rows) => rows != [] && rows[0] == Header && !ScanRows(rows[0], rows[1..]).stopped
  }

  lemma {:induction false} StoppedStays(header: Row, rows: seq<Row>, k: nat)
    requires k <= |rows| && ScanRows(header, rows[..k]).stopped
    ensures ScanRows(header, rows) == ScanRows(header, rows[..k])
    decreases |rows| - k
  {
    if k < |rows| {
      assert rows[..k + 1][..k] == rows[..k];
      StoppedStays(header, rows, k + 1);
    } else {
      assert rows[..k] == rows;
    }
  }

  /** `load_from_backup`: the rows after the header, read in order until one stops the loop. */
  method LoadFromBackup(file: Option<seq<Row>>) returns (entries: seq<Entry>)
    ensures entries == Loaded(file)
  {
    entries := [];
    if file.None? || file.value == [] {
      return;
    }
    var header := file.value[0];
    var rows := file.value[1..];
    var i := 0;
    while i < |rows|
      invariant 0 <= i <= |rows|
      invariant ScanRows(header, rows[..i]) == Scan(entries, false)
    {
      assert rows[..i + 1] == rows[..i] + [rows[i]];
      ScanAppend(header, rows[..i], rows[i]);
      ScanStepCases(header, Scan(entries, false), rows[i]);
      var outcome := ReadRow(header, rows[i]);
      if outcome.Stopped? {
        StoppedStays(header, rows, i + 1);
        return;
      }
      if outcome.Parsed? {
        entries := entries + [outcome.entry];
      }
      i := i + 1;
    }
    assert rows[..i] == rows;
  }

  /** A row with exactly the logged columns: the age is read by `int()` with no range check, and the voice-chat flag is true exactly for the text `Yes`. */
  lemma ReadLoggedColumns(age: string, vc: string, ts: string)
    ensures ReadRow(Header, [age, vc, ts]) ==
      if ParseInt(age).Some? then Parsed(Entry(ParseInt(age).value, vc == "Yes", ts)) else Skipped
  {
    var row := [age, vc, ts];
    assert Header[..3] == Header;
    assert Lookup(Header, row, "Age") == Present(age) by {
      assert LastIndexOf(Header, "Age") == 0;
    }
    assert Lookup(Header, row, "VC") == Present(vc) by {
      assert LastIndexOf(Header, "VC") == 1;
    }
    assert Lookup(Header, row, "Timestamp") == Present(ts);
  }

  /** A row the tracker writes reads back as the entry it was written from. */
  lemma ReadDataRow(e: Entry)
    ensures ReadRow(Header, DataRow(e)) == Parsed(e)
  {
    ReadLoggedColumns(Str(e.age), VcText(e.vc), e.timestamp);
    ParseStr(e.age);
  }

  /** Loading reads the rows in file order: reading a file in two parts gives the two results one after the other. */
  lemma {:induction false} ScanConcat(header: Row, a: seq<Row>, b: seq<Row>)
    ensures !ScanRows(header, a).stopped ==>
      ScanRows(header, a + b) ==
        Scan(ScanRows(header, a).entries + ScanRows(header, b).entries, ScanRows(header, b).stopped)
    decreases |b|
  {
    if ScanRows(header, a).stopped {
    } else if b == [] {
      assert a + b == a;
    } else {
      var b' := b[..|b| - 1];
      var row := b[|b| - 1];
      assert (a + b)[..|a + b| - 1] == a + b';
      assert (a + b)[|a + b| - 1] == row;
      ScanConcat(header, a, b');
      var left := ScanRows(header, a);
      var mid := ScanRows(header, b');
      assert ScanRows(header, a + b) == ScanStep(header, Scan(left.entries + mid.entries, mid.stopped), row);
      assert ScanRows(header, b) == ScanStep(header, mid, row);
      ScanStepAfter(header, left.entries, mid, row);
    }
  }

  /** A turn of the loop does not depend on the entries read before it. */
  lemma ScanStepAfter(header: Row, before: seq<Entry>, prev: Scan, row: Row)
    ensures ScanStep(header, Scan(before + prev.entries, prev.stopped), row) ==
      Scan(before + ScanStep(header, prev, row).entries, ScanStep(header, prev, row).stopped)
  {
    if !prev.stopped {
      match ReadRow(header, row)
      case Parsed(e) =>
        assert before + prev.entries + [e] == before + (prev.entries + [e]);
      case _ =>
    }
  }

  /** Appending the row of one recorded entry to an appendable file makes loading return one more entry, at the end. */
  lemma LoadAppended(file: Option<seq<Row>>, e: Entry)
    requires Appendable(file)
    ensures var rows := if file.None? then [Header] else file.value;
      Appendable(Some(rows + [DataRow(e)])) && Loaded(Some(rows + [DataRow(e)])) == Loaded(file) + [e]
  {
    var rows := if file.None? then [Header] else file.value;
    if file.None? {
      assert rows[1..] == [];
    }
    AppendToLog(rows, e);
  }

  /** Appending the row of `e` to a log that starts with the header and does not stop the loop reads `e` last. */
  lemma AppendToLog(rows: seq<Row>, e: Entry)
    requires rows != [] && rows[0] == Header && !ScanRows(Header, rows[1..]).stopped
    ensures var rows' := rows + [DataRow(e)];
      rows'[0] == Header && ScanRows(Header, rows'[1..]) == Scan(ScanRows(Header, rows[1..]).entries + [e], false)
  {
    var rows' := rows + [DataRow(e)];
    assert rows'[1..] == rows[1..] + [DataRow(e)];
    ReadDataRow(e);
    ScanAppend(Header, rows[1..], DataRow(e));
    ScanStepParsed(Header, ScanRows(Header, rows[1..]), DataRow(e), e);
  }

  /** A turn of the loop that has not stopped, by the outcome of the row. */
  lemma ScanStepCases(header: Row, prev: Scan, row: Row)
    requires !prev.stopped
    ensures var o := ReadRow(header, row);
      ScanStep(header, prev, row) ==
        if o.Stopped? then Scan(prev.entries, true)
        else if o.Parsed? then Scan(prev.entries + [o.entry], false)
        else prev
  {
  }

  /** A row that parses adds its entry at the end. */
  lemma ScanStepParsed(header: Row, prev: Scan, row: Row, e: Entry)
    requires !prev.stopped && ReadRow(header, row) == Parsed(e)
    ensures ScanStep(header, prev, row) == Scan(prev.entries + [e], false)
  {
  }

  lemma SplitLast<T>(s: seq<T>)
    requires s != []
    ensures s[..|s| - 1] + [s[|s| - 1]] == s
  {
  }

  /** Reading one more row is one more turn of the loop. */
  lemma ScanAppend(header: Row, rows: seq<Row>, row: Row)
    ensures ScanRows(header, rows + [row]) == ScanStep(header, ScanRows(header, rows), row)
  {
    assert (rows + [row])[..|rows|] == rows;
  }

  /** Under a header that reads every written row back, the rows written for `es` read back as exactly `es`. */
  lemma {:induction false} ScanWrittenRows(header: Row, es: seq<Entry>)
    requires forall e :: ReadRow(header, DataRow(e)) == Parsed(e)
    ensures ScanRows(header, DataRows(es)) == Scan(es, false)
    decreases |es|
  {
    if es != [] {
      var es', e := es[..|es| - 1], es[|es| - 1];
      ScanWrittenRows(header, es');
      ScanAppend(header, DataRows(es'), DataRow(e));
      SplitLast(es);
    }
  }

  /** A log that starts with the header loads as the scan of the rows after it. */
  lemma LoadAfterHeader(rows: seq<Row>)
    ensures Loaded(Some([Header] + rows)) == ScanRows(Header, rows).entries
    ensures Appendable(Some([Header] + rows)) <==> !ScanRows(Header, rows).stopped
  {
    assert ([Header] + rows)[1..] == rows;
  }

  /** Reading back the rows written for `es` gives exactly `es`, and never stops the loop. */
  lemma ScanDataRows(es: seq<Entry>)
    ensures ScanRows(Header, DataRows(es)) == Scan(es, false)
  {
    forall e: Entry
      ensures ReadRow(Header, DataRow(e)) == Parsed(e)
    {
      ReadDataRow(e);
    }
    ScanWrittenRows(Header, es);
  }

  /** The log holding the rows of `es` after its header loads back as exactly `es`, in order. */
  lemma LoadRoundTrip(es: seq<Entry>)
    ensures Appendable(Some([Header] + DataRows(es)))
    ensures Loaded(Some([Header] + DataRows(es))) == es
  {
    LoadAfterHeader(DataRows(es));
    ScanDataRows(es);
  }

  /** A missing file, and a file with a header and no rows, load as no entries. */
  lemma LoadEmpty()
    ensures Loaded(None) == []
    ensures Loaded(Some([Header])) == []
  {
  }

  /** A row the loop skips adds nothing. */
  lemma ScanSkipsRow(header: Row, rows: seq<Row>, row: Row)
    requires !ScanRows(header, rows).stopped && ReadRow(header, row).Skipped?
    ensures ScanRows(header, rows + [row]) == ScanRows(header, rows)
  {
    assert (rows + [row])[..|rows|] == rows;
  }

  /** A logged row whose age is not an integer is skipped. */
  lemma BadAgeSkipped(bad: string, vc: string, ts: string)
    requires ParseInt(bad).None?
    ensures ReadRow(Header, [bad, vc, ts]).Skipped?
  {
    assert Lookup(Header, [bad, vc, ts], "Age") == Present(bad) by {
      assert LastIndexOf(Header, "Age") == 0;
    }
  }

  /** A skipped row among written rows drops out of what the loop reads. */
  lemma ScanSkipsBetween(before: seq<Entry>, row: Row, after: seq<Entry>)
    requires ReadRow(Header, row).Skipped?
    ensures ScanRows(Header, DataRows(before) + [row] + DataRows(after)) == Scan(before + after, false)
  {
    ScanDataRows(before);
    ScanSkipsRow(Header, DataRows(before), row);
    ScanDataRows(after);
    ScanConcat(Header, DataRows(before) + [row], DataRows(after));
  }

  /** A row whose age is not an integer, placed anywhere among rows the tracker wrote, is skipped and the rest are all loaded, in order. */
  lemma LoadSkipsMalformed(before: seq<Entry>, bad: string, vc: string, ts: string, after: seq<Entry>)
    requires ParseInt(bad).None?
    ensures Loaded(Some([Header] + (DataRows(before) + [[bad, vc, ts]] + DataRows(after)))) == before + after
  {
    var badRow := [bad, vc, ts];
    BadAgeSkipped(bad, vc, ts);
    ScanSkipsBetween(before, badRow, after);
    LoadAfterHeader(DataRows(before) + [badRow] + DataRows(after));
  }
}
