/** The `History` table of database/common/models.py and its quota update.
    The table is a sequence of rows in table order; the clock is never read,
    "now" is a parameter. */
module Models {
  import opened Wrappers

  /** Column default of `token_count`. */
  const DefaultTokenCount: int := 10

  /** The allowance a stored count is reset to on the first check of a
      later day. */
  const DailyTokenCount: int := 50

  /** A `datetime` as far as the bot uses it: `date` is the calendar day that
      `.date()` compares, `month` the year-month that `strftime('%Y-%m')`
      groups by, and `instant` the point in time that ORDER BY compares. */
  datatype Timestamp = Timestamp(date: int, month: int, instant: int)

  /** One row of `History`. `chatId` holds what the bot stores there, the
      encrypted decimal form of the chat id. */
  datatype HistoryRow = HistoryRow(
    id: nat,
    chatId: string,
    name: string,
    number: string,
    message: string,
    tokenCount: int,
    lastGeneratedAt: Timestamp)

  /** The field values of one insert; a missing `token_count` is None.
      `id` and `last_generated_at` are never given. */
  datatype Entry = Entry(
    chatId: string,
    name: string,
    number: string,
    message: string,
    tokenCount: Option<int>)

  /** Position of the row that `History.get(History.chat_id == chatId)`
      returns: the first matching row in table order, None for
      DoesNotExist. */
  function FirstMatch(rows: seq<HistoryRow>, chatId: string): (r: Option<nat>)
    ensures r.Some? ==> r.value < |rows| && rows[r.value].chatId == chatId
    ensures r.Some? ==> forall j :: 0 <= j < r.value ==> rows[j].chatId != chatId
    ensures r.None? ==> forall j :: 0 <= j < |rows| ==> rows[j].chatId != chatId
    decreases |rows|
  {
    if rows == [] then None
    else if rows[0].chatId == chatId then Some(0)
    else
      match FirstMatch(rows[1..], chatId)
      case None => None
      case Some(k) => Some(k + 1)
  }

  /** The row an entry becomes when inserted with the given id at time
      `now`: the given fields, and the column defaults for the rest. */
  function NewRow(e: Entry, id: nat, now: Timestamp): HistoryRow {
    HistoryRow(id, e.chatId, e.name, e.number, e.message,
               match e.tokenCount case Some(c) => c case None => DefaultTokenCount,
               now)
  }

  function NewRows(entries: seq<Entry>, firstId: nat, now: Timestamp): seq<HistoryRow> {
    seq(|entries|, i requires 0 <= i < |entries| => NewRow(entries[i], firstId + i, now))
  }

  // ---------------------------------------------------------------------
  // The quota check of `History.update_token_count`

  datatype Consumption = Consumption(allowed: bool, rows: seq<HistoryRow>)

  /** The balance the check compares with 0: the daily allowance when the
      row was last stamped on an earlier day, the stored count otherwise. */
  function EffectiveBalance(row: HistoryRow, now: Timestamp): int {
    if row.lastGeneratedAt.date < now.date then DailyTokenCount else row.tokenCount
  }

  /** What `update_token_count(chat_id)` returns and leaves in the table. It
      touches only the first row of the chat, in place, and writes nothing
      when it answers False. */
  function ConsumeToken(rows: seq<HistoryRow>, chatId: string, now: Timestamp): (c: Consumption)
    ensures |c.rows| == |rows|
    ensures !c.allowed ==> c.rows == rows
    ensures forall j :: 0 <= j < |rows| && FirstMatch(rows, chatId) != Some(j) ==> c.rows[j] == rows[j]
    ensures c.allowed ==> FirstMatch(rows, chatId).Some? && FirstMatch(c.rows, chatId) == FirstMatch(rows, chatId)
  {
    match FirstMatch(rows, chatId)
    case None => Consumption(false, rows)
    case Some(k) =>
      var balance := EffectiveBalance(rows[k], now);
      if balance > 0 then
        var stamped := rows[k].(tokenCount := balance - 1, lastGeneratedAt := now);
        FirstMatchAfterUpdate(rows, chatId, k, stamped);
        Consumption(true, rows[k := stamped])
      else
        Consumption(false, rows)
  }

  /** A chat without any row is refused and the table stays as it was. */
  lemma ConsumeWithoutRow(rows: seq<HistoryRow>, chatId: string, now: Timestamp)
    requires forall j :: 0 <= j < |rows| ==> rows[j].chatId != chatId
    ensures ConsumeToken(rows, chatId, now) == Consumption(false, rows)
  {
  }

  /** The first check on a later day is allowed whatever the stored count
      was, and leaves 49 in the row, stamped with now; the row's other
      fields stay as they were. */
  lemma ConsumeOnNewDay(rows: seq<HistoryRow>, chatId: string, now: Timestamp, k: nat)
    requires FirstMatch(rows, chatId) == Some(k)
    requires rows[k].lastGeneratedAt.date < now.date
    ensures ConsumeToken(rows, chatId, now).allowed
    ensures ConsumeToken(rows, chatId, now).rows[k] ==
              rows[k].(tokenCount := DailyTokenCount - 1, lastGeneratedAt := now)
  {
  }

  /** On the same day the check is allowed exactly when the stored count is
      positive; it then lowers the count by one and stamps the row with
      now, and leaves the row's other fields as they were. */
  lemma ConsumeOnSameDay(rows: seq<HistoryRow>, chatId: string, now: Timestamp, k: nat)
    requires FirstMatch(rows, chatId) == Some(k)
    requires rows[k].lastGeneratedAt.date >= now.date
    ensures var c := ConsumeToken(rows, chatId, now);
            && (c.allowed <==> rows[k].tokenCount > 0)
            && (c.allowed ==> c.rows[k] == rows[k].(tokenCount := rows[k].tokenCount - 1, lastGeneratedAt := now))
  {
  }

  /** The quota row never goes below zero through this check. */
  lemma ConsumeKeepsCountNonNegative(rows: seq<HistoryRow>, chatId: string, now: Timestamp, k: nat)
    requires FirstMatch(rows, chatId) == Some(k)
    requires rows[k].tokenCount >= 0
    ensures ConsumeToken(rows, chatId, now).rows[k].tokenCount >= 0
  {
  }

  /** n checks in a row for one chat at one moment. */
  function ConsumeRepeatedly(rows: seq<HistoryRow>, chatId: string, now: Timestamp, n: nat): (nat, seq<HistoryRow>)
    decreases n
  {
    if n == 0 then (0, rows)
    else
      var c := ConsumeToken(rows, chatId, now);
      var (more, after) := ConsumeRepeatedly(c.rows, chatId, now, n - 1);
      (if c.allowed then more + 1 else more, after)
  }

  /** n checks on the day the quota row was last stamped, starting from a
      balance b >= 0, are allowed exactly min(n, b) times and leave
      max(b - n, 0): requests beyond the balance are refused and the count
      never goes negative. */
  lemma {:induction false} ConsumeRepeatedlySameDay(rows: seq<HistoryRow>, chatId: string, now: Timestamp, k: nat, n: nat)
    requires FirstMatch(rows, chatId) == Some(k)
    requires rows[k].lastGeneratedAt.date == now.date && rows[k].tokenCount >= 0
    ensures var (allowed, after) := ConsumeRepeatedly(rows, chatId, now, n);
            var b := rows[k].tokenCount;
            && allowed == (if n <= b then n else b)
            && |after| == |rows|
            && after[k].tokenCount == (if n <= b then b - n else 0)
    decreases n
  {
    if n > 0 {
      var c := ConsumeToken(rows, chatId, now);
      assert FirstMatch(c.rows, chatId) == Some(k) by {
        FirstMatchAfterUpdate(rows, chatId, k, c.rows[k]);
        if c.allowed { assert c.rows == rows[k := c.rows[k]]; } else { assert c.rows == rows; }
      }
      ConsumeRepeatedlySameDay(c.rows, chatId, now, k, n - 1);
    }
  }

  /** Rewriting the first matching row without touching its chat id keeps
      it the first matching row. */
  lemma FirstMatchAfterUpdate(rows: seq<HistoryRow>, chatId: string, k: nat, row: HistoryRow)
    requires FirstMatch(rows, chatId) == Some(k)
    requires row.chatId == chatId
    ensures FirstMatch(rows[k := row], chatId) == Some(k)
  {
    var updated := rows[k := row];
    assert updated[k].chatId == chatId;
    assert forall j :: 0 <= j < k ==> updated[j] == rows[j];
  }

  // ---------------------------------------------------------------------
  // The table

  class HistoryTable {
    var rows: seq<HistoryRow>

    /** The id the next inserted row receives. */
    var nextId: nat

    /** Ids grow strictly in table order and stay below `nextId`. */
    ghost predicate Valid()
      reads this
    {
      && (forall i, j :: 0 <= i < j < |rows| ==> rows[i].id < rows[j].id)
      && (forall i :: 0 <= i < |rows| ==> rows[i].id < nextId)
    }

    constructor ()
      ensures Valid() && rows == [] && nextId == 1
    {
      rows := [];
      nextId := 1;
    }

    /** `History.get(History.chat_id == chatId)`; None for DoesNotExist. */
    function Get(chatId: string): (r: Option<HistoryRow>)
      reads this
      ensures r.None? <==> forall j :: 0 <= j < |rows| ==> rows[j].chatId != chatId
      ensures r.Some? ==> FirstMatch(rows, chatId).Some? && r.value == rows[FirstMatch(rows, chatId).value]
      ensures r.Some? ==> r.value.chatId == chatId
    {
      match FirstMatch(rows, chatId)
      case None => None
      case Some(k) => Some(rows[k])
    }

    /** `History.update_token_count(chat_id)`: fetch the row, reset its count
        on a new day, and when the count is positive lower it, stamp the row
        and save it. */
    method UpdateTokenCount(chatId: string, now: Timestamp) returns (ok: bool)
      requires Valid()
      modifies this
      ensures Valid() && nextId == old(nextId)
      ensures ok == ConsumeToken(old(rows), chatId, now).allowed
      ensures rows == ConsumeToken(old(rows), chatId, now).rows
    {
      var found := FirstMatch(rows, chatId);
      if found.None? {
        return false;
      }
      var k := found.value;
      var userHistory := rows[k];
      if userHistory.lastGeneratedAt.date < now.date {
        userHistory := userHistory.(tokenCount := DailyTokenCount);
      }
      if userHistory.tokenCount > 0 {
        userHistory := userHistory.(tokenCount := userHistory.tokenCount - 1);
        userHistory := userHistory.(lastGeneratedAt := now);
        rows := rows[k := userHistory];
        return true;
      } else {
        return false;
      }
    }

    /** `History.insert_many(entries).execute()`: one statement that appends
        the entries in order, each with a fresh id and the column defaults. */
    method InsertMany(entries: seq<Entry>, now: Timestamp)
      requires Valid()
      modifies this
      ensures Valid()
      ensures rows == old(rows) + NewRows(entries, old(nextId), now)
      ensures nextId == old(nextId) + |entries|
    {
      rows := rows + NewRows(entries, nextId, now);
      nextId := nextId + |entries|;
    }
  }
}
