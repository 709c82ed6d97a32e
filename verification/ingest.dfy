/**
 * Per-file ingestion (`process_excel_file`): every row of a readable sheet is
 * mapped to one order record; a row that cannot be read is skipped, and a
 * file that cannot be read contributes no records at all.
 */
module Ingest {
  import opened Wrappers
  import opened Orders
  import opened Discovery
  import Phone

  /** The column headers the mapping reads (order number, recipient, phone, country, address). */
  const OrderNoColumn := "订单号"
  const RecipientColumn := "收货人名称"
  const PhoneColumn := "联系电话"
  const CountryColumn := "国家"
  const AddressColumn := "收货地址"

  /** One spreadsheet row: the text of each cell under its column header. */
  type Row = map<string, string>

  /** What reading a spreadsheet file gives: its rows, or a file-level failure. */
  datatype Workbook = Unreadable | Sheet(rows: seq<Row>)

  /** A row can be read when every column the mapping looks up is present. */
  predicate HasRequiredColumns(row: Row) {
    && OrderNoColumn in row
    && RecipientColumn in row
    && PhoneColumn in row
    && CountryColumn in row
    && AddressColumn in row
  }

  /**
   * The body of the row loop: the record built from one row, or None when a
   * column lookup fails and the row is skipped.
   */
  function MapRow(path: FilePath, row: Row): (r: Option<OrderRecord>)
    ensures r.Some? <==> HasRequiredColumns(row)
    ensures r.Some? ==> Phone.IsCanonical(r.value.phone) && r.value.sourceFile == Basename(path)
    ensures r.Some? ==> r.value.phone == Phone.Clean(row[PhoneColumn])
    ensures r.Some? ==>
      && r.value.orderId == row[OrderNoColumn]
      && r.value.recipient == row[RecipientColumn]
      && r.value.country == row[CountryColumn]
      && r.value.address == row[AddressColumn]
  {
    if HasRequiredColumns(row) then
      Some(OrderRecord(
        row[OrderNoColumn],
        row[RecipientColumn],
        Phone.Clean(row[PhoneColumn]),
        row[CountryColumn],
        row[AddressColumn],
        Basename(path)))
    else None
  }

  /** The records of a sequence of rows: one per readable row, in row order. */
  function RowsToRecords(path: FilePath, rows: seq<Row>): (r: seq<OrderRecord>)
    ensures |r| <= |rows|
    ensures forall k :: 0 <= k < |r| ==> Phone.IsCanonical(r[k].phone) && r[k].sourceFile == Basename(path)
  {
    if rows == [] then []
    else
      match MapRow(path, rows[0])
      case Some(record) => [record] + RowsToRecords(path, rows[1..])
      case None => RowsToRecords(path, rows[1..])
  }

  /** The records of a whole file: none when the file cannot be read. */
  function FileRecords(path: FilePath, book: Workbook): (r: seq<OrderRecord>)
    ensures book.Unreadable? ==> r == []
    ensures forall k :: 0 <= k < |r| ==> Phone.IsCanonical(r[k].phone) && r[k].sourceFile == Basename(path)
  {
    match book
    case Unreadable => []
    case Sheet(rows) => RowsToRecords(path, rows)
  }

  /** Consecutive blocks of rows give consecutive blocks of records: row order is kept. */
  lemma {:induction false} RowsToRecordsAppend(path: FilePath, a: seq<Row>, b: seq<Row>)
    ensures RowsToRecords(path, a + b) == RowsToRecords(path, a) + RowsToRecords(path, b)
  {
    if a == [] {
      assert a + b == b;
    } else {
      assert (a + b)[0] == a[0];
      assert (a + b)[1..] == a[1..] + b;
      RowsToRecordsAppend(path, a[1..], b);
    }
  }

  /** Every row readable: one record per row. No row readable: no record at all. */
  lemma {:induction false} RowsToRecordsCount(path: FilePath, rows: seq<Row>)
    ensures (forall i :: 0 <= i < |rows| ==> HasRequiredColumns(rows[i])) ==>
      |RowsToRecords(path, rows)| == |rows|
    ensures (forall i :: 0 <= i < |rows| ==> !HasRequiredColumns(rows[i])) ==>
      RowsToRecords(path, rows) == []
  {
    if rows != [] {
      RowsToRecordsCount(path, rows[1..]);
      assert forall i :: 0 <= i < |rows[1..]| ==> rows[1..][i] == rows[i + 1];
    }
  }

  /** A single row yields exactly its own record when it can be read, and nothing otherwise. */
  lemma RowsToRecordsSingle(path: FilePath, row: Row)
    ensures HasRequiredColumns(row) ==> RowsToRecords(path, [row]) == [MapRow(path, row).value]
    ensures !HasRequiredColumns(row) ==> RowsToRecords(path, [row]) == []
  {
    assert [row][1..] == [];
  }

  /** Every record comes from some row of the file: the mapping invents nothing. */
  lemma {:induction false} RowsToRecordsOrigin(path: FilePath, rows: seq<Row>)
    ensures forall k :: 0 <= k < |RowsToRecords(path, rows)| ==>
      exists i :: 0 <= i < |rows| && MapRow(path, rows[i]) == Some(RowsToRecords(path, rows)[k])
  {
    if rows == [] {
      assert RowsToRecords(path, rows) == [];
    } else {
      RowsToRecordsOrigin(path, rows[1..]);
      var r := RowsToRecords(path, rows);
      var tail := RowsToRecords(path, rows[1..]);
      var shift := if MapRow(path, rows[0]).Some? then 1 else 0;
      forall k | 0 <= k < |r|
        ensures exists i :: 0 <= i < |rows| && MapRow(path, rows[i]) == Some(r[k])
      {
        if k < shift {
          assert MapRow(path, rows[0]) == Some(r[k]);
        } else {
          assert r[k] == tail[k - shift];
          var i :| 0 <= i < |rows[1..]| && MapRow(path, rows[1..][i]) == Some(tail[k - shift]);
          assert MapRow(path, rows[i + 1]) == Some(r[k]);
        }
      }
    }
  }

  /** Every readable row contributes its record: no readable row is lost. */
  lemma {:induction false} RowsToRecordsComplete(path: FilePath, rows: seq<Row>)
    ensures forall i :: 0 <= i < |rows| && HasRequiredColumns(rows[i]) ==>
      MapRow(path, rows[i]).value in RowsToRecords(path, rows)
  {
    if rows != [] {
      RowsToRecordsComplete(path, rows[1..]);
      forall i | 0 <= i < |rows| && HasRequiredColumns(rows[i])
        ensures MapRow(path, rows[i]).value in RowsToRecords(path, rows)
      {
        if i > 0 {
          assert rows[i] == rows[1..][i - 1];
        }
      }
    }
  }

  /** The cleaned phone cells of the readable rows. */
  function RowPhones(rows: seq<Row>): set<string> {
    set j | 0 <= j < |rows| && HasRequiredColumns(rows[j]) :: Phone.Clean(rows[j][PhoneColumn])
  }

  /** The phones a file can contribute: the cleaned phone cells of its readable rows, none when it cannot be read. */
  function BookPhones(book: Workbook): set<string> {
    match book
    case Unreadable => {}
    case Sheet(rows) => RowPhones(rows)
  }

  /** Every phone of the records is the cleaned phone cell of some readable row. */
  lemma RecordPhonesFromRows(path: FilePath, rows: seq<Row>)
    ensures Phones(RowsToRecords(path, rows)) <= RowPhones(rows)
  {
    var r := RowsToRecords(path, rows);
    RowsToRecordsOrigin(path, rows);
    forall p | p in Phones(r)
      ensures p in RowPhones(rows)
    {
      var k :| 0 <= k < |r| && r[k].phone == p;
      var i :| 0 <= i < |rows| && MapRow(path, rows[i]) == Some(r[k]);
      assert HasRequiredColumns(rows[i]) && Phone.Clean(rows[i][PhoneColumn]) == p;
    }
  }

  /** The cleaned phone cell of every readable row is the phone of some record. */
  lemma RowPhonesInRecords(path: FilePath, rows: seq<Row>)
    ensures RowPhones(rows) <= Phones(RowsToRecords(path, rows))
  {
    var r := RowsToRecords(path, rows);
    RowsToRecordsComplete(path, rows);
    forall p | p in RowPhones(rows)
      ensures p in Phones(r)
    {
      var j :| 0 <= j < |rows| && HasRequiredColumns(rows[j]) && Phone.Clean(rows[j][PhoneColumn]) == p;
      var k :| 0 <= k < |r| && r[k] == MapRow(path, rows[j]).value;
      assert r[k].phone == p;
    }
  }

  /** The phones of the records are exactly the cleaned phone cells of the readable rows. */
  lemma RowsToRecordsPhones(path: FilePath, rows: seq<Row>)
    ensures Phones(RowsToRecords(path, rows)) == RowPhones(rows)
  {
    RecordPhonesFromRows(path, rows);
    RowPhonesInRecords(path, rows);
  }

  /** The phones of a file's records are exactly the phones the file can contribute. */
  lemma FileRecordsPhones(path: FilePath, book: Workbook)
    ensures Phones(FileRecords(path, book)) == BookPhones(book)
  {
    if book.Sheet? {
      RowsToRecordsPhones(path, book.rows);
    }
  }

  /** The row loop of `process_excel_file`: one record appended per readable row. */
  method ProcessRows(path: FilePath, rows: seq<Row>) returns (records: seq<OrderRecord>)
    ensures records == RowsToRecords(path, rows)
  {
    records := [];
    var i := 0;
    while i < |rows|
      invariant 0 <= i <= |rows|
      invariant records == RowsToRecords(path, rows[..i])
    {
      assert rows[..i + 1] == rows[..i] + [rows[i]];
      RowsToRecordsAppend(path, rows[..i], [rows[i]]);
      RowsToRecordsSingle(path, rows[i]);
      var row := MapRow(path, rows[i]);
      if row.Some? {
        records := records + [row.value];
      }
      i := i + 1;
    }
    assert rows[..i] == rows;
  }

  /** `process_excel_file`: the rows of a readable file, or no records when the file cannot be read. */
  method ProcessFile(path: FilePath, book: Workbook) returns (records: seq<OrderRecord>)
    ensures records == FileRecords(path, book)
    ensures book.Unreadable? ==> records == []
    ensures book.Sheet? ==> |records| <= |book.rows|
  {
    match book
    case Unreadable =>
      records := [];
    case Sheet(rows) =>
      records := ProcessRows(path, rows);
  }
}
