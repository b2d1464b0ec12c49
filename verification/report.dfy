/**
 The CSV report files as a store from file name to rows; a name present in
 the store is a file that exists. Each append opens the file in append mode
 (creating it), asks whether the file exists, writes the header row if it
 does not, and writes the data row.
 */
module Report {
  import opened Replies

  /** One CSV row: the cells `csv.writer` is given. */
  type Row = seq<Value>

  type Store = map<string, seq<Row>>

  const HeaderRow: Row := [Str("HOSTNAME"), Str("IP ADDR"), Str("VTP MODE")]

  /** The rows of a file; a missing file reads as empty. */
  function Rows(fs: Store, name: string): seq<Row> {
    if name in fs then fs[name] else []
  }

  /** `open(name, "a")`: the file exists afterwards, its rows untouched. */
  function OpenAppend(fs: Store, name: string): (fs': Store)
    ensures fs'.Keys == fs.Keys + {name}
    ensures forall n :: n in fs ==> fs'[n] == fs[n]
    ensures fs'[name] == Rows(fs, name)
  {
    if name in fs then fs else fs[name := []]
  }

  function WriteRow(fs: Store, name: string, row: Row): Store {
    fs[name := Rows(fs, name) + [row]]
  }

  /**
   Where the existence check sits relative to the append-mode open:
   `OpenThenCheck` is the order of the source, `CheckThenOpen` the order
   that makes the header guard work.
   */
  datatype Order = OpenThenCheck | CheckThenOpen

  /** What a file that did not exist starts with after its first append. */
  function NewFileStart(order: Order): seq<Row> {
    if order == CheckThenOpen then [HeaderRow] else []
  }

  /** The header rows one append writes: none to an existing file. */
  function Header(order: Order, fs: Store, name: string): seq<Row> {
    if name in fs then [] else NewFileStart(order)
  }

  /**
   One `with open(name, "a")` block: open, check `os.path.isfile`, write the
   header if the check says the file is missing, write the data row.
   */
  function Append(order: Order, fs: Store, name: string, row: Row): (fs': Store)
    ensures fs'.Keys == fs.Keys + {name}
    ensures order == OpenThenCheck ==> Rows(fs', name) == Rows(fs, name) + [row]
    ensures order == CheckThenOpen ==> Rows(fs', name) == (if name in fs then fs[name] else [HeaderRow]) + [row]
    ensures forall n :: n != name ==> Rows(fs', n) == Rows(fs, n)
  {
    var existedBefore := name in fs;
    var created := OpenAppend(fs, name);
    var isFile := if order == OpenThenCheck then name in created else existedBefore;
    var headed := if !isFile then WriteRow(created, name, HeaderRow) else created;
    assert !isFile ==> Rows(headed, name) == [HeaderRow];
    WriteRow(headed, name, row)
  }

  /** Appending a sequence of rows, one `Append` after another. */
  function AppendAll(order: Order, fs: Store, name: string, rows: seq<Row>): Store
    decreases |rows|
  {
    if rows == [] then fs else AppendAll(order, Append(order, fs, name, rows[0]), name, rows[1..])
  }

  /**
   With the source's order the header branch is dead: appending rows adds
   them and nothing else, even to a file that did not exist.
   */
  lemma {:induction false} AsWrittenNeverHeads(fs: Store, name: string, rows: seq<Row>)
    ensures AppendAll(OpenThenCheck, fs, name, rows).Keys == if rows == [] then fs.Keys else fs.Keys + {name}
    ensures Rows(AppendAll(OpenThenCheck, fs, name, rows), name) == Rows(fs, name) + rows
    decreases |rows|
  {
    if rows != [] {
      var fs1 := Append(OpenThenCheck, fs, name, rows[0]);
      AsWrittenNeverHeads(fs1, name, rows[1..]);
      assert Rows(fs, name) + [rows[0]] + rows[1..] == Rows(fs, name) + rows;
    }
  }

  /** Under either order, a file that already exists gains exactly the appended rows. */
  lemma {:induction false} ExistingGainsRows(order: Order, fs: Store, name: string, rows: seq<Row>)
    requires name in fs
    ensures name in AppendAll(order, fs, name, rows)
    ensures Rows(AppendAll(order, fs, name, rows), name) == fs[name] + rows
    decreases |rows|
  {
    if rows != [] {
      var fs1 := Append(order, fs, name, rows[0]);
      assert name in fs1 && fs1[name] == fs[name] + [rows[0]];
      ExistingGainsRows(order, fs1, name, rows[1..]);
      assert fs[name] + [rows[0]] + rows[1..] == fs[name] + rows;
    }
  }

  /**
   With the check before the open, N rows written to a missing file give
   one header row followed by the N rows; an existing file only gains the rows.
   */
  lemma HeaderExactlyOnce(fs: Store, name: string, rows: seq<Row>)
    requires rows != []
    ensures Rows(AppendAll(CheckThenOpen, fs, name, rows), name) ==
      (if name in fs then fs[name] else [HeaderRow]) + rows
  {
    if name in fs {
      ExistingGainsRows(CheckThenOpen, fs, name, rows);
    } else {
      var fs1 := Append(CheckThenOpen, fs, name, rows[0]);
      assert name in fs1 && fs1[name] == [HeaderRow, rows[0]];
      ExistingGainsRows(CheckThenOpen, fs1, name, rows[1..]);
      assert [HeaderRow, rows[0]] + rows[1..] == [HeaderRow] + rows;
    }
  }

  /** Appending to one file never creates or changes another. */
  lemma {:induction false} AppendAllIsolated(order: Order, fs: Store, name: string, rows: seq<Row>, other: string)
    requires other != name
    ensures other in AppendAll(order, fs, name, rows) <==> other in fs
    ensures Rows(AppendAll(order, fs, name, rows), other) == Rows(fs, other)
    decreases |rows|
  {
    if rows != [] {
      AppendAllIsolated(order, Append(order, fs, name, rows[0]), name, rows[1..], other);
    }
  }
}
