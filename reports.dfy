/** The two read-only reports of my_bot/my_bot.py: the `/history` query and
    text, and the month statistics behind `/low` and `/high`.

    Assumption about the query library (peewee): the plain strings given to
    `.group_by("month")` and `.order_by("total_requests")` refer to the
    select's aliases of the same names, so the month query groups by month
    and orders by the count. */
module Reports {
  import opened Wrappers
  import opened Models
  import Codec
  import Sorting

  /** `.limit(10)` of the history query. */
  const HistoryLimit: nat := 10

  /** The WHERE clause both reports share: the row belongs to the chat and
      its stored message does not start with '/'. */
  predicate Visible(row: HistoryRow, chatId: string) {
    row.chatId == chatId && !Codec.IsCommandText(row.message)
  }

  /** The rows passing the WHERE clause, in table order. */
  function VisibleRows(rows: seq<HistoryRow>, chatId: string): (r: seq<HistoryRow>)
    ensures forall x :: x in r <==> x in rows && Visible(x, chatId)
    ensures multiset(r) <= multiset(rows)
    decreases |rows|
  {
    if rows == [] then
      []
    else
      var rest := VisibleRows(rows[1..], chatId);
      assert rows == [rows[0]] + rows[1..];
      if Visible(rows[0], chatId) then [rows[0]] + rest else rest
  }

  /** Sort key of `.order_by(History.last_generated_at.desc())`. */
  function NewestFirst(row: HistoryRow): int {
    -row.lastGeneratedAt.instant
  }

  /** The `/history` query: at most ten rows of the chat that are not
      commands, newest first; no row left out is newer than the last one
      shown. */
  function SelectHistory(rows: seq<HistoryRow>, chatId: string): (r: seq<HistoryRow>)
    ensures var n := |VisibleRows(rows, chatId)|;
            |r| == if n < HistoryLimit then n else HistoryLimit
    ensures forall i :: 0 <= i < |r| ==> r[i] in rows && Visible(r[i], chatId)
    ensures multiset(r) <= multiset(VisibleRows(rows, chatId))
    ensures forall i, j :: 0 <= i < j < |r| ==>
              r[i].lastGeneratedAt.instant >= r[j].lastGeneratedAt.instant
    ensures forall x :: x in rows && Visible(x, chatId) && x !in r ==>
              |r| == HistoryLimit && x.lastGeneratedAt.instant <= r[|r| - 1].lastGeneratedAt.instant
  {
    var visible := VisibleRows(rows, chatId);
    var sorted := Sorting.SortBy(visible, NewestFirst);
    var r := if |sorted| <= HistoryLimit then sorted else sorted[..HistoryLimit];
    TopOfSorted(visible, sorted, r);
    r
  }

  /** The first ten of the newest-first order of the visible rows. */
  lemma TopOfSorted(visible: seq<HistoryRow>, sorted: seq<HistoryRow>, r: seq<HistoryRow>)
    requires Sorting.SortedBy(sorted, NewestFirst) && multiset(sorted) == multiset(visible)
    requires r == if |sorted| <= HistoryLimit then sorted else sorted[..HistoryLimit]
    ensures |r| == if |visible| < HistoryLimit then |visible| else HistoryLimit
    ensures multiset(r) <= multiset(visible)
    ensures forall i :: 0 <= i < |r| ==> r[i] in visible
    ensures forall i, j :: 0 <= i < j < |r| ==>
              r[i].lastGeneratedAt.instant >= r[j].lastGeneratedAt.instant
    ensures forall x :: x in visible && x !in r ==>
              |r| == HistoryLimit && x.lastGeneratedAt.instant <= r[|r| - 1].lastGeneratedAt.instant
  {
    assert |sorted| == |multiset(sorted)| == |multiset(visible)| == |visible|;
    if |sorted| > HistoryLimit {
      assert sorted == r + sorted[HistoryLimit..];
      assert multiset(sorted) == multiset(r) + multiset(sorted[HistoryLimit..]);
    }
    assert multiset(r) <= multiset(visible);
    forall i | 0 <= i < |r| ensures r[i] in visible {
      assert r[i] in multiset(r);
      assert r[i] in multiset(visible);
    }
    forall i, j | 0 <= i < j < |r|
      ensures r[i].lastGeneratedAt.instant >= r[j].lastGeneratedAt.instant
    {
      assert NewestFirst(sorted[i]) <= NewestFirst(sorted[j]);
    }
    forall x | x in visible && x !in r
      ensures |r| == HistoryLimit && x.lastGeneratedAt.instant <= r[|r| - 1].lastGeneratedAt.instant
    {
      assert x in multiset(sorted);
      var k :| 0 <= k < |sorted| && sorted[k] == x;
      assert k >= HistoryLimit;
      assert NewestFirst(sorted[HistoryLimit - 1]) <= NewestFirst(sorted[k]);
    }
  }

  // ---------------------------------------------------------------------
  // The text of /history

  /** "Последние 10 запросов пользователя {user_name}:\n" */
  function HistoryHeader(userName: string): string {
    "Последние 10 запросов пользователя " + userName + ":\n"
  }

  /** "Сообщение: {message}\n" */
  function HistoryLine(plain: string): string {
    "Сообщение: " + plain + "\n"
  }

  /** The `/history` reply for the given plaintexts: the header, then one
      line per plaintext in order. */
  function HistoryReply(userName: string, plains: seq<string>): string
    decreases |plains|
  {
    if plains == [] then HistoryHeader(userName)
    else HistoryReply(userName, plains[..|plains| - 1]) + HistoryLine(plains[|plains| - 1])
  }

  /** The decrypted messages of the entries, in order; Err at the first
      decryption that raises. */
  function DecryptAll(entries: seq<HistoryRow>, key: int): (r: Result<seq<string>, Codec.CodecError>)
    ensures r.Err? <==> exists i :: 0 <= i < |entries| && Codec.Caesar(entries[i].message, key, Codec.Backward).Err?
    ensures r.Ok? ==> |r.value| == |entries| &&
                      forall i :: 0 <= i < |entries| ==> Codec.Caesar(entries[i].message, key, Codec.Backward) == Ok(r.value[i])
    decreases |entries|
  {
    if entries == [] then
      Ok([])
    else
      var init := entries[..|entries| - 1];
      assert forall i :: 0 <= i < |init| ==> init[i] == entries[i];
      match DecryptAll(init, key)
      case Err(e) => Err(e)
      case Ok(prefix) =>
        match Codec.Caesar(entries[|entries| - 1].message, key, Codec.Backward)
        case Err(e) => Err(e)
        case Ok(plain) => Ok(prefix + [plain])
  }

  function HistoryText(userName: string, entries: seq<HistoryRow>, key: int): Result<string, Codec.CodecError> {
    match DecryptAll(entries, key)
    case Err(e) => Err(e)
    case Ok(plains) => Ok(HistoryReply(userName, plains))
  }

  lemma {:induction false} DecryptAllFailsOnPrefix(entries: seq<HistoryRow>, key: int, i: nat)
    requires i <= |entries| && DecryptAll(entries[..i], key).Err?
    ensures DecryptAll(entries, key) == DecryptAll(entries[..i], key)
    decreases |entries| - i
  {
    if i < |entries| {
      assert entries[..i + 1][..i] == entries[..i];
      DecryptAllFailsOnPrefix(entries, key, i + 1);
    } else {
      assert entries[..i] == entries;
    }
  }

  /** One more entry: a failed decryption makes the whole result that
      failure, a successful one extends the prefix by one plaintext. */
  lemma DecryptNext(userName: string, entries: seq<HistoryRow>, key: int, i: nat, plains: seq<string>)
    requires i < |entries| && DecryptAll(entries[..i], key) == Ok(plains)
    ensures var plain := Codec.Caesar(entries[i].message, key, Codec.Backward);
            && (plain.Err? ==> DecryptAll(entries, key) == Err(plain.error))
            && (plain.Ok? ==> DecryptAll(entries[..i + 1], key) == Ok(plains + [plain.value]) &&
                              HistoryReply(userName, plains + [plain.value]) == HistoryReply(userName, plains) + HistoryLine(plain.value))
  {
    assert entries[..i + 1][..i] == entries[..i];
    assert entries[..i + 1][i] == entries[i];
    var plain := Codec.Caesar(entries[i].message, key, Codec.Backward);
    if plain.Err? {
      DecryptAllFailsOnPrefix(entries, key, i + 1);
    } else {
      assert (plains + [plain.value])[..|plains|] == plains;
    }
  }

  /** The loop that builds the `/history` reply, one decrypted line per
      selected row. */
  method FormatHistory(userName: string, entries: seq<HistoryRow>, key: int) returns (r: Result<string, Codec.CodecError>)
    ensures r == HistoryText(userName, entries, key)
  {
    var text := HistoryHeader(userName);
    ghost var plains: seq<string> := [];
    for i := 0 to |entries|
      invariant DecryptAll(entries[..i], key) == Ok(plains)
      invariant text == HistoryReply(userName, plains)
    {
      var plain := Codec.Decrypt(entries[i].message, key);
      DecryptNext(userName, entries, key, i, plains);
      if plain.Err? {
        return Err(plain.error);
      }
      text := text + HistoryLine(plain.value);
      plains := plains + [plain.value];
    }
    assert entries[..|entries|] == entries;
    r := Ok(text);
  }

  /** For a non-negative key (every chat id the bot can log) the history
      text is always produced. */
  lemma {:induction false} DecryptAllTotal(entries: seq<HistoryRow>, key: int)
    requires key >= 0
    ensures DecryptAll(entries, key).Ok?
    decreases |entries|
  {
    if entries != [] {
      DecryptAllTotal(entries[..|entries| - 1], key);
      Codec.NonNegativeKeyTotal(entries[|entries| - 1].message, key, Codec.Backward);
    }
  }

  /** When every shown row holds the encryption of a plaintext under the
      chat's own (non-negative) id, the `/history` reply lists exactly
      those plaintexts, in order. */
  lemma {:induction false} HistoryShowsPlaintexts(userName: string, entries: seq<HistoryRow>, plains: seq<string>, key: int)
    requires key >= 0 && |entries| == |plains|
    requires forall i :: 0 <= i < |entries| ==> Codec.Caesar(plains[i], key, Codec.Forward) == Ok(entries[i].message)
    ensures HistoryText(userName, entries, key) == Ok(HistoryReply(userName, plains))
    decreases |entries|
  {
    DecryptAllOfEncrypted(entries, plains, key);
  }

  lemma {:induction false} DecryptAllOfEncrypted(entries: seq<HistoryRow>, plains: seq<string>, key: int)
    requires key >= 0 && |entries| == |plains|
    requires forall i :: 0 <= i < |entries| ==> Codec.Caesar(plains[i], key, Codec.Forward) == Ok(entries[i].message)
    ensures DecryptAll(entries, key) == Ok(plains)
    decreases |entries|
  {
    if entries != [] {
      var n := |entries| - 1;
      DecryptAllOfEncrypted(entries[..n], plains[..n], key);
      Codec.DecryptEncrypt(plains[n], key);
      assert plains == plains[..n] + [plains[n]];
    }
  }

  // ---------------------------------------------------------------------
  // Month statistics of /low and /high

  /** One result row of the month query: `month` and `total_requests`. */
  datatype MonthTotal = MonthTotal(month: int, total: nat)

  function MonthOf(row: HistoryRow): int {
    row.lastGeneratedAt.month
  }

  /** `COUNT(History.id)` of one month group. */
  function CountInMonth(rows: seq<HistoryRow>, chatId: string, month: int): nat
    decreases |rows|
  {
    if rows == [] then 0
    else
      var last := rows[|rows| - 1];
      CountInMonth(rows[..|rows| - 1], chatId, month) + if Visible(last, chatId) && MonthOf(last) == month then 1 else 0
  }

  lemma {:induction false} CountInMonthPositive(rows: seq<HistoryRow>, chatId: string, i: nat)
    requires i < |rows| && Visible(rows[i], chatId)
    ensures CountInMonth(rows, chatId, MonthOf(rows[i])) > 0
    decreases |rows|
  {
    if i < |rows| - 1 {
      assert rows[..|rows| - 1][i] == rows[i];
      CountInMonthPositive(rows[..|rows| - 1], chatId, i);
    }
  }

  /** The months of the chat's visible rows, each once, in order of first
      appearance: the groups of `.group_by("month")`, read as the alias. */
  function MonthsOf(rows: seq<HistoryRow>, chatId: string): (ms: seq<int>)
    ensures forall i, j :: 0 <= i < j < |ms| ==> ms[i] != ms[j]
    ensures forall m :: m in ms <==> exists i :: 0 <= i < |rows| && Visible(rows[i], chatId) && MonthOf(rows[i]) == m
    decreases |rows|
  {
    if rows == [] then
      []
    else
      var front := rows[..|rows| - 1];
      var last := rows[|rows| - 1];
      var before := MonthsOf(front, chatId);
      assert forall i :: 0 <= i < |front| ==> rows[i] == front[i];
      if Visible(last, chatId) && MonthOf(last) !in before then before + [MonthOf(last)] else before
  }

  /** One (month, count) pair per month group. */
  function GroupByMonth(rows: seq<HistoryRow>, chatId: string): seq<MonthTotal> {
    var ms := MonthsOf(rows, chatId);
    seq(|ms|, i requires 0 <= i < |ms| => MonthTotal(ms[i], CountInMonth(rows, chatId, ms[i])))
  }

  function TotalOf(g: MonthTotal): int {
    g.total
  }

  /** The month query of `/low` and `/high`: for every month in which the
      chat has non-command rows, one pair with the number of those rows,
      ordered by that number ascending; empty exactly when the chat has no
      such row. */
  function MonthTotals(rows: seq<HistoryRow>, chatId: string): (r: seq<MonthTotal>)
    ensures forall i :: 0 <= i < |r| ==> r[i].total == CountInMonth(rows, chatId, r[i].month) && r[i].total > 0
    ensures forall i :: 0 <= i < |rows| && Visible(rows[i], chatId) ==>
              exists k :: 0 <= k < |r| && r[k].month == MonthOf(rows[i])
    ensures r == [] <==> forall i :: 0 <= i < |rows| ==> !Visible(rows[i], chatId)
    ensures forall i, j :: 0 <= i < j < |r| ==> r[i].total <= r[j].total
    ensures forall i, j :: 0 <= i < j < |r| ==> r[i].month != r[j].month
  {
    var r := Sorting.SortBy(GroupByMonth(rows, chatId), TotalOf);
    SortedGroups(rows, chatId, r);
    r
  }

  lemma SortedGroups(rows: seq<HistoryRow>, chatId: string, r: seq<MonthTotal>)
    requires multiset(r) == multiset(GroupByMonth(rows, chatId))
    ensures forall i :: 0 <= i < |r| ==> r[i].total == CountInMonth(rows, chatId, r[i].month) && r[i].total > 0
    ensures forall i :: 0 <= i < |rows| && Visible(rows[i], chatId) ==>
              exists k :: 0 <= k < |r| && r[k].month == MonthOf(rows[i])
    ensures r == [] <==> forall i :: 0 <= i < |rows| ==> !Visible(rows[i], chatId)
    ensures forall i, j :: 0 <= i < j < |r| ==> r[i].month != r[j].month
  {
    var groups := GroupByMonth(rows, chatId);
    var ms := MonthsOf(rows, chatId);
    assert Sorting.Distinct(groups) by {
      forall i, j | 0 <= i < j < |groups| ensures groups[i] != groups[j] {
        assert groups[i].month == ms[i] && groups[j].month == ms[j];
      }
    }
    Sorting.DistinctPermutation(r, groups);
    assert |r| == |multiset(r)| == |multiset(groups)| == |groups|;
    forall i | 0 <= i < |r|
      ensures r[i].total == CountInMonth(rows, chatId, r[i].month) && r[i].total > 0
    {
      assert r[i] in multiset(groups);
      var k :| 0 <= k < |groups| && groups[k] == r[i];
      assert ms[k] in ms;
      var w :| 0 <= w < |rows| && Visible(rows[w], chatId) && MonthOf(rows[w]) == ms[k];
      CountInMonthPositive(rows, chatId, w);
    }
    forall i | 0 <= i < |rows| && Visible(rows[i], chatId)
      ensures exists k :: 0 <= k < |r| && r[k].month == MonthOf(rows[i])
    {
      var m := MonthOf(rows[i]);
      assert m in ms;
      var j :| 0 <= j < |ms| && ms[j] == m;
      assert groups[j] in multiset(r);
      var k :| 0 <= k < |r| && r[k] == groups[j];
    }
    if r != [] {
      assert r[0] in multiset(groups);
      var k :| 0 <= k < |groups| && groups[k] == r[0];
      assert ms[k] in ms;
    }
  }

  lemma {:induction false} VisibleRowsAppend(rows: seq<HistoryRow>, row: HistoryRow, chatId: string)
    requires !Visible(row, chatId)
    ensures VisibleRows(rows + [row], chatId) == VisibleRows(rows, chatId)
    decreases |rows|
  {
    if rows == [] {
      assert VisibleRows([row], chatId) == VisibleRows([row][1..], chatId);
    } else {
      assert (rows + [row])[1..] == rows[1..] + [row];
      VisibleRowsAppend(rows[1..], row, chatId);
    }
  }

  /** A row the reports do not see (another chat's, or a command) changes
      neither the `/history` selection nor the month totals. */
  lemma AppendInvisible(rows: seq<HistoryRow>, row: HistoryRow, chatId: string)
    requires !Visible(row, chatId)
    ensures SelectHistory(rows + [row], chatId) == SelectHistory(rows, chatId)
    ensures MonthTotals(rows + [row], chatId) == MonthTotals(rows, chatId)
  {
    VisibleRowsAppend(rows, row, chatId);
    var longer := rows + [row];
    assert longer[..|longer| - 1] == rows;
    assert MonthsOf(longer, chatId) == MonthsOf(rows, chatId);
    assert forall m :: CountInMonth(longer, chatId, m) == CountInMonth(rows, chatId, m);
    assert GroupByMonth(longer, chatId) == GroupByMonth(rows, chatId);
  }

  /** Which report: `/low` runs `min`, `/high` runs `max`. */
  datatype Extreme = Lowest | Highest

  /** a is strictly better than b for the report; `min` and `max` replace
      their candidate only on a strict improvement. */
  predicate Beats(which: Extreme, a: MonthTotal, b: MonthTotal) {
    match which
    case Lowest => a.total < b.total
    case Highest => a.total > b.total
  }

  /** `min(months, key=...)` or `max(months, key=...)`, continued from the
      candidate at `best` over the pairs from `i` on: the index of the first
      pair that no other pair beats. */
  function PickFrom(ms: seq<MonthTotal>, which: Extreme, best: nat, i: nat): (k: nat)
    requires best < i <= |ms|
    requires forall j :: 0 <= j < i ==> !Beats(which, ms[j], ms[best])
    requires forall j :: 0 <= j < best ==> Beats(which, ms[best], ms[j])
    ensures k < |ms|
    ensures forall j :: 0 <= j < |ms| ==> !Beats(which, ms[j], ms[k])
    ensures forall j :: 0 <= j < k ==> Beats(which, ms[k], ms[j])
    decreases |ms| - i
  {
    if i == |ms| then best
    else if Beats(which, ms[i], ms[best]) then
      NewCandidate(ms, which, best, i);
      PickFrom(ms, which, i, i + 1)
    else PickFrom(ms, which, best, i + 1)
  }

  /** A pair that beats the candidate beats every pair before it. */
  lemma NewCandidate(ms: seq<MonthTotal>, which: Extreme, best: nat, i: nat)
    requires best < i < |ms| && Beats(which, ms[i], ms[best])
    requires forall j :: 0 <= j < i ==> !Beats(which, ms[j], ms[best])
    ensures forall j :: 0 <= j < i + 1 ==> !Beats(which, ms[j], ms[i])
    ensures forall j :: 0 <= j < i ==> Beats(which, ms[i], ms[j])
  {
    forall j | 0 <= j < i
      ensures !Beats(which, ms[j], ms[i]) && Beats(which, ms[i], ms[j])
    {
      assert !Beats(which, ms[j], ms[best]);
    }
  }

  /** The pair `/low` or `/high` reports, None when the query is empty:
      a pair whose total is <= (for `/low`) or >= (for `/high`) every total,
      and the first such pair in query order. */
  function Pick(ms: seq<MonthTotal>, which: Extreme): (r: Option<MonthTotal>)
    ensures r.None? <==> ms == []
    ensures r.Some? ==> exists k :: 0 <= k < |ms| && ms[k] == r.value &&
                          forall j :: 0 <= j < k ==> Beats(which, r.value, ms[j])
    ensures r.Some? && which == Lowest ==> forall j :: 0 <= j < |ms| ==> r.value.total <= ms[j].total
    ensures r.Some? && which == Highest ==> forall j :: 0 <= j < |ms| ==> r.value.total >= ms[j].total
  {
    if ms == [] then None else Some(ms[PickFrom(ms, which, 0, 1)])
  }

  /** What `/low` and `/high` send. */
  datatype MonthReport = NoRequests | MonthFound(month: int, total: nat)

  /** The report for a user: the query filters `History.chat_id` with the
      raw user id, which the column holds in decimal form. */
  function ReportMonths(rows: seq<HistoryRow>, userId: int, which: Extreme): MonthReport {
    match Pick(MonthTotals(rows, Codec.DecimalString(userId)), which)
    case None => NoRequests
    case Some(g) => MonthFound(g.month, g.total)
  }

  /** `/low` names a month whose count of non-command rows is <= that of
      every month with such rows, `/high` one whose count is >= every such
      month's; both send the fixed "no requests" text exactly when the chat
      has no such row at all. */
  lemma ReportMonthsMeaning(rows: seq<HistoryRow>, userId: int, which: Extreme)
    ensures var chatId := Codec.DecimalString(userId);
            ReportMonths(rows, userId, which) == NoRequests <==>
              forall i :: 0 <= i < |rows| ==> !Visible(rows[i], chatId)
    ensures var chatId := Codec.DecimalString(userId);
            ReportMonths(rows, userId, which).MonthFound? ==>
              var report := ReportMonths(rows, userId, which);
              && report.total == CountInMonth(rows, chatId, report.month) > 0
              && forall i :: 0 <= i < |rows| && Visible(rows[i], chatId) ==>
                   var other := CountInMonth(rows, chatId, MonthOf(rows[i]));
                   if which == Lowest then report.total <= other else report.total >= other
  {
    var chatId := Codec.DecimalString(userId);
    var ms := MonthTotals(rows, chatId);
    var report := ReportMonths(rows, userId, which);
    if report.MonthFound? {
      forall i | 0 <= i < |rows| && Visible(rows[i], chatId)
        ensures var other := CountInMonth(rows, chatId, MonthOf(rows[i]));
                if which == Lowest then report.total <= other else report.total >= other
      {
        var k :| 0 <= k < |ms| && ms[k].month == MonthOf(rows[i]);
        assert ms[k].total == CountInMonth(rows, chatId, MonthOf(rows[i]));
      }
    }
  }
}
