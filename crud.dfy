/**
 * `database_operations/crud.py`: `insert_item`, an upsert of the `items` table keyed by
 * `name`, and `get_items_within_date_range`, an inclusive date-range read whose byte
 * values are rewritten as UUIDs. The MySQL database is a class holding the committed
 * rows and the number of pool connections in use.
 */
module Crud {
  import opened Wrappers
  import opened UuidCodec
  import opened ItemsTable

  /** The request dictionary handed to `insert_item`. */
  type Item = map<string, string>

  /** What `insert_item` raises: the missing-key ValueError, the ValueError of `float(price)`, or a MySQL error. */
  datatype Error = MissingKeys | InvalidPrice | DatabaseError

  /** Which database step, if any, raises in a given call. */
  datatype Fault = NoFault | SelectFails | WriteFails | CommitFails

  /** The reply of one `insert_item` call and the committed table it leaves behind. */
  datatype Upserted = Upserted(reply: Result<string, Error>, table: seq<Row>)

  predicate HasRequiredKeys(item: Item)
  {
    "name" in item && "category" in item && "price" in item
  }

  /**
   * One `insert_item` call on the committed rows `rows`. `random` is the 16 bytes `uuid.uuid4()`
   * draws, `toTwoDecimals` is `"{:.2f}".format(float(p))` (None when `float` raises), `fault`
   * says which database step raises, and `columnDefault` is the `last_updated_dt` the
   * database gives a row inserted without one.
   */
  function Upsert(rows: seq<Row>, item: Item, random: seq<byte>, toTwoDecimals: string -> Option<string>,
                  fault: Fault, columnDefault: Option<Timestamp>): (u: Upserted)
    requires |random| == 16
    ensures u.reply.Err? ==> u.table == rows
    ensures u.reply.Ok? ==> |u.table| == |rows| || |u.table| == |rows| + 1
    ensures |rows| <= |u.table|
    ensures forall i :: 0 <= i < |rows| ==> u.table[i].id == rows[i].id && u.table[i].name == rows[i].name
  {
    if !HasRequiredKeys(item) then Upserted(Err(MissingKeys), rows)
    else if fault == SelectFails then Upserted(Err(DatabaseError), rows)
    else
      var price := toTwoDecimals(item["price"]);
      if price.None? then Upserted(Err(InvalidPrice), rows)
      else if fault != NoFault then Upserted(Err(DatabaseError), rows)
      else match FirstByName(rows, item["name"])
        case Some(k) =>
          Upserted(Ok(Hex(rows[k].id)), SetWhereId(rows, rows[k].id, item["category"], price.value))
        case None =>
          var id := Uuid4(random);
          Upserted(Ok(UuidText(id)), rows + [Row(id, item["name"], item["category"], price.value, columnDefault)])
  }

  const NoItemsMessage: string := "No items found within the specified date range"

  /** `{"message": ...}` when nothing matched, otherwise the rewritten `items`. */
  datatype DateRangeReply = Message(text: string) | Items(items: seq<Record>)

  class Database {
    /** The committed contents of the `items` table. */
    var rows: seq<Row>
    /** Connections of the pool currently acquired. */
    var connectionsInUse: nat

    constructor (initial: seq<Row>)
      ensures rows == initial && connectionsInUse == 0
    {
      rows := initial;
      connectionsInUse := 0;
    }

    /**
     * `insert_item`: validate, look the name up, then UPDATE or INSERT inside a transaction
     * that is committed on success and rolled back on any error; the connection goes back
     * to the pool on every path.
     */
    method InsertItem(item: Item, random: seq<byte>, toTwoDecimals: string -> Option<string>,
                      fault: Fault, columnDefault: Option<Timestamp>) returns (reply: Result<string, Error>)
      requires |random| == 16
      modifies this
      ensures connectionsInUse == old(connectionsInUse)
      ensures Upserted(reply, rows) == Upsert(old(rows), item, random, toTwoDecimals, fault, columnDefault)
    {
      connectionsInUse := connectionsInUse + 1;
      // what this connection sees inside its transaction
      var staged := rows;
      if !HasRequiredKeys(item) {
        reply := Err(MissingKeys);
      } else if fault == SelectFails {
        reply := Err(DatabaseError);
      } else {
        var existing := FirstByName(staged, item["name"]);
        var price := toTwoDecimals(item["price"]);
        if price.None? {
          reply := Err(InvalidPrice);
        } else if fault == WriteFails {
          reply := Err(DatabaseError);
        } else {
          var id: string;
          if existing.Some? {
            var existingId := staged[existing.value].id;
            staged := SetWhereId(staged, existingId, item["category"], price.value);
            id := Hex(existingId);
          } else {
            var newId := Uuid4(random);
            staged := staged + [Row(newId, item["name"], item["category"], price.value, columnDefault)];
            id := UuidText(newId);
          }
          if fault == CommitFails {
            reply := Err(DatabaseError);
          } else {
            rows := staged;
            reply := Ok(id);
          }
        }
      }
      // an error leaves `rows` as it was: the staged writes are rolled back
      connectionsInUse := connectionsInUse - 1;
    }

    /**
     * `get_items_within_date_range`: the inclusive BETWEEN select, the empty-result message,
     * and the nested loops that rewrite every bytes value of every fetched dictionary in place.
     */
    method GetItemsWithinDateRange(from: Timestamp, to: Timestamp) returns (reply: DateRangeReply)
      ensures reply.Message? <==> forall i :: 0 <= i < |rows| ==> !InRange(rows[i], from, to)
      ensures reply.Message? ==> reply.text == NoItemsMessage
      ensures reply.Items? ==> reply.items != [] && reply.items == DecodeAll(FetchAll(RowsInRange(rows, from, to)))
    {
      var fetched := FetchAll(RowsInRange(rows, from, to));
      if fetched == [] {
        return Message(NoItemsMessage);
      }
      var items := new Record[|fetched|](i requires 0 <= i < |fetched| => fetched[i]);
      var i := 0;
      while i < items.Length
        invariant 0 <= i <= items.Length
        invariant forall k :: 0 <= k < i ==> items[k] == DecodeRecord(fetched[k])
        invariant forall k :: i <= k < items.Length ==> items[k] == fetched[k]
      {
        var j := 0;
        while j < |items[i]|
          invariant 0 <= j <= |items[i]| == |fetched[i]|
          invariant forall m :: 0 <= m < j ==> items[i][m] == DecodeRecord(fetched[i])[m]
          invariant forall m :: j <= m < |items[i]| ==> items[i][m] == fetched[i][m]
          invariant forall k :: 0 <= k < i ==> items[k] == DecodeRecord(fetched[k])
          invariant forall k :: i < k < items.Length ==> items[k] == fetched[k]
        {
          var field := items[i][j];
          if field.value.Bytes? {
            items[i] := items[i][j := Field(field.key, DecodeValue(field.value))];
          }
          j := j + 1;
        }
        assert items[i] == DecodeRecord(fetched[i]);
        i := i + 1;
      }
      reply := Items(items[..]);
    }
  }

  /** A request without `name`, `category` or `price` is refused before any query, and nothing is written. */
  lemma UpsertMissingKeys(rows: seq<Row>, item: Item, random: seq<byte>, toTwoDecimals: string -> Option<string>,
                          fault: Fault, columnDefault: Option<Timestamp>)
    requires |random| == 16
    requires !HasRequiredKeys(item)
    ensures Upsert(rows, item, random, toTwoDecimals, fault, columnDefault) == Upserted(Err(MissingKeys), rows)
  {
  }

  /** The call fails exactly when a key is missing, the price is not a number, or a database step raises; then the table is rolled back. */
  lemma UpsertFailsOnlyByRollback(rows: seq<Row>, item: Item, random: seq<byte>, toTwoDecimals: string -> Option<string>,
                                  fault: Fault, columnDefault: Option<Timestamp>)
    requires |random| == 16
    ensures var u := Upsert(rows, item, random, toTwoDecimals, fault, columnDefault);
      && (u.reply.Err? <==> !HasRequiredKeys(item) || fault != NoFault || toTwoDecimals(item["price"]).None?)
      && (u.reply.Err? ==> u.table == rows)
  {
  }

  /** The request holds every required key and a price `float` accepts. */
  predicate Succeeds(item: Item, toTwoDecimals: string -> Option<string>)
  {
    HasRequiredKeys(item) && toTwoDecimals(item["price"]).Some?
  }

  /**
   * When the name is already stored, the first such row keeps its id and name and takes the new
   * category and price, no row is added, rows carrying another id are untouched, and the reply
   * is the stored id as plain hex.
   */
  lemma UpsertUpdatesExisting(rows: seq<Row>, item: Item, random: seq<byte>, toTwoDecimals: string -> Option<string>,
                              columnDefault: Option<Timestamp>)
    requires |random| == 16
    requires Succeeds(item, toTwoDecimals)
    requires FirstByName(rows, item["name"]).Some?
    ensures var k := FirstByName(rows, item["name"]).value;
      var u := Upsert(rows, item, random, toTwoDecimals, NoFault, columnDefault);
      && u.reply == Ok(Hex(rows[k].id))
      && |u.table| == |rows|
      && u.table[k] == rows[k].(category := item["category"], price := toTwoDecimals(item["price"]).value)
      && (forall i :: 0 <= i < |rows| ==>
            u.table[i].id == rows[i].id && u.table[i].name == rows[i].name && u.table[i].lastUpdated == rows[i].lastUpdated)
      && (forall i :: 0 <= i < |rows| && rows[i].id != rows[k].id ==> u.table[i] == rows[i])
      && (UniqueIds(rows) ==> forall i :: 0 <= i < |rows| && i != k ==> u.table[i] == rows[i])
  {
  }

  /**
   * When the name is not stored, exactly one row is appended, carrying the stamped version-4 id,
   * the request's name and category and the formatted price; the reply is that id as UUID text.
   */
  lemma UpsertInsertsNew(rows: seq<Row>, item: Item, random: seq<byte>, toTwoDecimals: string -> Option<string>,
                         columnDefault: Option<Timestamp>)
    requires |random| == 16
    requires Succeeds(item, toTwoDecimals)
    requires forall i :: 0 <= i < |rows| ==> rows[i].name != item["name"]
    ensures var u := Upsert(rows, item, random, toTwoDecimals, NoFault, columnDefault);
      && u.table[..|rows|] == rows
      && u.table == rows + [Row(Uuid4(random), item["name"], item["category"], toTwoDecimals(item["price"]).value, columnDefault)]
      && IsVersion4(u.table[|rows|].id)
      && u.reply == Ok(UuidText(u.table[|rows|].id))
  {
  }

  /** Sequential calls keep at most one row per name. */
  lemma UpsertKeepsNamesUnique(rows: seq<Row>, item: Item, random: seq<byte>, toTwoDecimals: string -> Option<string>,
                               fault: Fault, columnDefault: Option<Timestamp>)
    requires |random| == 16
    requires UniqueNames(rows)
    ensures UniqueNames(Upsert(rows, item, random, toTwoDecimals, fault, columnDefault).table)
  {
  }

  /** The ids stay distinct as long as the drawn id is not one already stored (nothing in the code checks this). */
  lemma UpsertKeepsIdsUnique(rows: seq<Row>, item: Item, random: seq<byte>, toTwoDecimals: string -> Option<string>,
                             fault: Fault, columnDefault: Option<Timestamp>)
    requires |random| == 16
    requires UniqueIds(rows)
    requires !HasId(rows, Uuid4(random))
    ensures UniqueIds(Upsert(rows, item, random, toTwoDecimals, fault, columnDefault).table)
  {
  }

  /**
   * Two calls with the same new name: one row holds that name, with the id of the first call and the
   * category and price of the second; the first reply is the id as UUID text and the second the same
   * id as plain hex, which is the first reply without its hyphens.
   */
  lemma UpsertTwiceSameName(rows: seq<Row>, first: Item, second: Item, random1: seq<byte>, random2: seq<byte>,
                            toTwoDecimals: string -> Option<string>, columnDefault: Option<Timestamp>)
    requires |random1| == 16 && |random2| == 16
    requires Succeeds(first, toTwoDecimals) && Succeeds(second, toTwoDecimals)
    requires second["name"] == first["name"]
    requires forall i :: 0 <= i < |rows| ==> rows[i].name != first["name"]
    requires !HasId(rows, Uuid4(random1))
    ensures var u1 := Upsert(rows, first, random1, toTwoDecimals, NoFault, columnDefault);
      var u2 := Upsert(u1.table, second, random2, toTwoDecimals, NoFault, columnDefault);
      var id := Uuid4(random1);
      && |u2.table| == |rows| + 1
      && u2.table[..|rows|] == rows
      && u2.table[|rows|] == Row(id, first["name"], second["category"], toTwoDecimals(second["price"]).value, columnDefault)
      && (forall i :: 0 <= i < |u2.table| && u2.table[i].name == first["name"] ==> i == |rows|)
      && u1.reply == Ok(UuidText(id))
      && u2.reply == Ok(Hex(id))
      && Unhyphenate(u1.reply.value) == u2.reply.value
  {
    var u1 := Upsert(rows, first, random1, toTwoDecimals, NoFault, columnDefault);
    var n := |rows|;
    UpsertInsertsNew(rows, first, random1, toTwoDecimals, columnDefault);
    assert u1.table[n].name == first["name"];
    assert FirstByName(u1.table, second["name"]) == Some(n) by {
      assert forall j :: 0 <= j < n ==> u1.table[j].name != first["name"];
    }
    UpsertUpdatesExisting(u1.table, second, random2, toTwoDecimals, columnDefault);
    var u2 := Upsert(u1.table, second, random2, toTwoDecimals, NoFault, columnDefault);
    forall i | 0 <= i < n
      ensures u2.table[i] == rows[i]
    {
      assert u1.table[i] == rows[i];
      assert rows[i].id != Uuid4(random1);
    }
    UnhyphenateUuidText(Uuid4(random1));
  }

  /**
   * The shape of a successful reply when every stored id is 16 bytes: 32 hex digits on the update
   * path, 36 characters with hyphens at 8, 13, 18 and 23 on the insert path.
   */
  lemma UpsertReplyShape(rows: seq<Row>, item: Item, random: seq<byte>, toTwoDecimals: string -> Option<string>,
                         fault: Fault, columnDefault: Option<Timestamp>)
    requires |random| == 16
    requires forall i :: 0 <= i < |rows| ==> |rows[i].id| == 16
    ensures var r := Upsert(rows, item, random, toTwoDecimals, fault, columnDefault).reply;
      r.Ok? ==>
        if FirstByName(rows, item["name"]).Some? then
          |r.value| == 32 && forall i :: 0 <= i < 32 ==> IsHexDigit(r.value[i])
        else
          |r.value| == 36 && forall i :: 0 <= i < 36 ==> (r.value[i] == '-' <==> IsHyphenPosition(i))
  {
  }

  /**
   * Each dictionary of a non-empty date-range reply comes from a stored row in range: its id is that
   * row's UUID, or "Invalid encoding" when the stored id is not 16 bytes, and its name, category and
   * price are the row's.
   */
  lemma RangeReplyItem(rows: seq<Row>, from: Timestamp, to: Timestamp, k: nat)
    requires k < |RowsInRange(rows, from, to)|
    ensures var row := RowsInRange(rows, from, to)[k];
      var rec := DecodeAll(FetchAll(RowsInRange(rows, from, to)))[k];
      && row in rows && InRange(row, from, to)
      && rec == [Field("id", if |row.id| == 16 then Uuid(row.id) else Text(InvalidEncoding)),
                 Field("name", Text(row.name)), Field("category", Text(row.category)),
                 Field("price", Decimal(row.price))]
  {
  }
}
