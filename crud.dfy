/** `_store_data` and `_retrieve_all_data` of database/utils/CRUD.py, the
    two operations the bot reaches through `CRUDInterface.create()` and
    `CRUDInterface.retrieve()`. */
module Crud {
  import opened Wrappers
  import opened Models

  /** An entry after the loop of `_store_data`: a given `token_count` is
      lowered by one, an entry without one is left alone. */
  function Decremented(e: Entry): Entry {
    match e.tokenCount
    case None => e
    case Some(c) => e.(tokenCount := Some(c - 1))
  }

  /** The row that an entry handed to `_store_data` ends up as: its own
      fields, its token count minus one when it carries one and the column
      default of 10 otherwise, and the insertion time. */
  ghost predicate StoredAs(row: HistoryRow, e: Entry, now: Timestamp) {
    && row.chatId == e.chatId
    && row.name == e.name
    && row.number == e.number
    && row.message == e.message
    && row.tokenCount == (if e.tokenCount.Some? then e.tokenCount.value - 1 else DefaultTokenCount)
    && row.lastGeneratedAt == now
  }

  /** `_store_data(db, History, *data)`. `insertRaises` stands for an
      exception from the insert statement, which is caught and logged: the
      table is then left as it was. Otherwise the entries are appended in
      argument order, after the rows already there. */
  method StoreData(table: HistoryTable, data: seq<Entry>, now: Timestamp, insertRaises: bool)
    requires table.Valid()
    modifies table
    ensures table.Valid()
    ensures insertRaises ==> table.rows == old(table.rows) && table.nextId == old(table.nextId)
    ensures !insertRaises ==> |table.rows| == |old(table.rows)| + |data|
    ensures !insertRaises ==> table.nextId == old(table.nextId) + |data|
    ensures table.rows[..|old(table.rows)|] == old(table.rows)
    ensures !insertRaises ==> forall j :: 0 <= j < |data| ==>
              StoredAs(table.rows[|old(table.rows)| + j], data[j], now) &&
              table.rows[|old(table.rows)| + j].id == old(table.nextId) + j
  {
    var entries := data;
    for i := 0 to |entries|
      invariant |entries| == |data|
      invariant forall j :: 0 <= j < i ==> entries[j] == Decremented(data[j])
      invariant forall j :: i <= j < |data| ==> entries[j] == data[j]
    {
      if entries[i].tokenCount.Some? {
        entries := entries[i := entries[i].(tokenCount := Some(entries[i].tokenCount.value - 1))];
      }
    }
    if insertRaises {
      return;
    }
    table.InsertMany(entries, now);
  }

  /** A single entry stored after `before`, with the given id, is the row
      `NewRow` builds from its decremented entry. */
  lemma StoredOne(before: seq<HistoryRow>, after: seq<HistoryRow>, e: Entry, id: nat, now: Timestamp)
    requires |after| == |before| + 1 && after[..|before|] == before
    requires StoredAs(after[|before|], e, now) && after[|before|].id == id
    ensures after == before + [NewRow(Decremented(e), id, now)]
  {
    assert after == after[..|before|] + [after[|before|]];
  }

  /** `_retrieve_all_data(db, History)`: every row, in table order, with no
      filtering. */
  method RetrieveAllData(table: HistoryTable) returns (rows: seq<HistoryRow>)
    ensures |rows| == |table.rows|
    ensures forall i :: 0 <= i < |rows| ==> rows[i] == table.rows[i]
  {
    rows := table.rows;
  }
}
