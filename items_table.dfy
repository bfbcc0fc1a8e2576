/**
 * The `items` table and the SQL statements `database_operations/crud.py` runs on it,
 * each stated as a function on the table's rows in table order. A fetched row is a
 * record of (column name, value) fields, as the dictionary cursor returns it, and the
 * per-value rewrite of the date-range query turns byte values into UUIDs.
 */
module ItemsTable {
  import opened Wrappers
  import opened UuidCodec

  /** A `last_updated_dt` value; DATETIME values compare chronologically, as integers do. */
  type Timestamp = int

  /**
   * One row of `items`. `price` is the two-decimal text stored in the DECIMAL column;
   * `lastUpdated` is None for a NULL `last_updated_dt`.
   */
  datatype Row = Row(id: seq<byte>, name: string, category: string, price: string, lastUpdated: Option<Timestamp>)

  /** A value of a fetched row: text, raw bytes, a `uuid.UUID`, or a DECIMAL. */
  datatype Value = Text(s: string) | Bytes(b: seq<byte>) | Uuid(id: seq<byte>) | Decimal(digits: string)

  datatype Field = Field(key: string, value: Value)

  /** One dictionary of `cursor.fetchall()`, its keys in column order. */
  type Record = seq<Field>

  predicate UniqueNames(rows: seq<Row>)
  {
    forall i, j :: 0 <= i < j < |rows| ==> rows[i].name != rows[j].name
  }

  predicate UniqueIds(rows: seq<Row>)
  {
    forall i, j :: 0 <= i < j < |rows| ==> rows[i].id != rows[j].id
  }

  predicate HasId(rows: seq<Row>, id: seq<byte>)
  {
    exists i :: 0 <= i < |rows| && rows[i].id == id
  }

  /** `SELECT id, price FROM items WHERE name = %s` followed by `fetchone()`: the first row with that name. */
  function FirstByName(rows: seq<Row>, name: string): (r: Option<nat>)
    ensures r.Some? ==> r.value < |rows| && rows[r.value].name == name
    ensures r.Some? ==> forall j :: 0 <= j < r.value ==> rows[j].name != name
    ensures r.None? <==> forall j :: 0 <= j < |rows| ==> rows[j].name != name
  {
    if rows == [] then None
    else if rows[0].name == name then Some(0)
    else match FirstByName(rows[1..], name)
      case None => None
      case Some(k) => Some(k + 1)
  }

  /** `UPDATE items SET category = %s, price = %s WHERE id = %s`: every row carrying `id` is rewritten. */
  function SetWhereId(rows: seq<Row>, id: seq<byte>, category: string, price: string): (r: seq<Row>)
    ensures |r| == |rows|
  {
    seq(|rows|, i requires 0 <= i < |rows| =>
      if rows[i].id == id then rows[i].(category := category, price := price) else rows[i])
  }

  /** The UPDATE never touches `id`, `name` or `last_updated_dt`, and leaves rows with another id as they were. */
  lemma SetWhereIdChangesOnlyCategoryAndPrice(rows: seq<Row>, id: seq<byte>, category: string, price: string)
    ensures var r := SetWhereId(rows, id, category, price);
      forall i :: 0 <= i < |rows| ==>
        && r[i].id == rows[i].id && r[i].name == rows[i].name && r[i].lastUpdated == rows[i].lastUpdated
        && (rows[i].id == id ==> r[i].category == category && r[i].price == price)
        && (rows[i].id != id ==> r[i] == rows[i])
  {
  }

  /** `last_updated_dt BETWEEN dt_from AND dt_to`: inclusive at both ends, never true of NULL. */
  predicate InRange(row: Row, from: Timestamp, to: Timestamp)
  {
    row.lastUpdated.Some? && from <= row.lastUpdated.value <= to
  }

  /** The rows the date-range SELECT returns, in table order. */
  function RowsInRange(rows: seq<Row>, from: Timestamp, to: Timestamp): (r: seq<Row>)
    ensures |r| <= |rows|
    ensures forall x :: x in r <==> x in rows && InRange(x, from, to)
    ensures r == [] <==> forall i :: 0 <= i < |rows| ==> !InRange(rows[i], from, to)
  {
    if rows == [] then []
    else if InRange(rows[0], from, to) then [rows[0]] + RowsInRange(rows[1..], from, to)
    else RowsInRange(rows[1..], from, to)
  }

  /** Selecting a whole table whose rows are all in range gives the table back. */
  lemma {:induction false} RowsInRangeAllMatch(rows: seq<Row>, from: Timestamp, to: Timestamp)
    requires forall i :: 0 <= i < |rows| ==> InRange(rows[i], from, to)
    ensures RowsInRange(rows, from, to) == rows
  {
    if rows != [] {
      RowsInRangeAllMatch(rows[1..], from, to);
      assert [rows[0]] + rows[1..] == rows;
    }
  }

  /** The dictionary `SELECT id, name, category, price` yields for one row. */
  function Fetch(row: Row): (r: Record)
    ensures |r| == 4 && r[0].key == "id" && r[1].key == "name" && r[2].key == "category" && r[3].key == "price"
  {
    [Field("id", Bytes(row.id)), Field("name", Text(row.name)),
     Field("category", Text(row.category)), Field("price", Decimal(row.price))]
  }

  function FetchAll(rows: seq<Row>): (r: seq<Record>)
    ensures |r| == |rows|
  {
    seq(|rows|, i requires 0 <= i < |rows| => Fetch(rows[i]))
  }

  const InvalidEncoding: string := "Invalid encoding"

  /**
   * The rewrite of one value: `uuid.UUID(bytes=value)` for a bytes value, which raises
   * ValueError unless it holds exactly 16 bytes, in which case the text "Invalid encoding"
   * replaces it; a value that is not bytes is left alone.
   */
  function DecodeValue(v: Value): (r: Value)
    ensures !r.Bytes?
  {
    match v
    case Bytes(b) => if |b| == 16 then Uuid(b) else Text(InvalidEncoding)
    case _ => v
  }

  /** One record after its inner loop: same keys in the same order, every value rewritten. */
  function DecodeRecord(rec: Record): (r: Record)
    ensures |r| == |rec|
  {
    seq(|rec|, j requires 0 <= j < |rec| => Field(rec[j].key, DecodeValue(rec[j].value)))
  }

  /** All records after the outer loop. */
  function DecodeAll(items: seq<Record>): (r: seq<Record>)
    ensures |r| == |items|
  {
    seq(|items|, i requires 0 <= i < |items| => DecodeRecord(items[i]))
  }

  /**
   * The rewrite, value by value: 16 bytes become that UUID, any other bytes become
   * "Invalid encoding", other values (the text ids of the tests included) pass through.
   */
  lemma DecodeValueCases(v: Value)
    ensures v.Bytes? && |v.b| == 16 ==> DecodeValue(v) == Uuid(v.b) && |DecodeValue(v).id| == 16
    ensures v.Bytes? && |v.b| != 16 ==> DecodeValue(v) == Text("Invalid encoding")
    ensures !v.Bytes? ==> DecodeValue(v) == v
  {
  }

  /** The rewrite keeps the number and keys of the fields and leaves no bytes behind. */
  lemma DecodeRecordShape(rec: Record)
    ensures |DecodeRecord(rec)| == |rec|
    ensures forall j :: 0 <= j < |rec| ==> DecodeRecord(rec)[j].key == rec[j].key
    ensures forall j :: 0 <= j < |rec| ==> !DecodeRecord(rec)[j].value.Bytes?
    ensures forall j :: 0 <= j < |rec| && !rec[j].value.Bytes? ==> DecodeRecord(rec)[j] == rec[j]
  {
  }

  /** Running the rewrite a second time changes nothing. */
  lemma DecodeAllIdempotent(items: seq<Record>)
    ensures DecodeAll(DecodeAll(items)) == DecodeAll(items)
  {
    var once := DecodeAll(items);
    forall i | 0 <= i < |items|
      ensures DecodeRecord(once[i]) == once[i]
    {
      DecodeRecordShape(once[i]);
    }
  }
}
