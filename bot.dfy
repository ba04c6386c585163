/** The `Bot` class of my_bot/my_bot.py: the `is_generating` flag, the
    handlers registered in `Bot.start`, and `generate_and_send_image`, over
    the `History` table. Messages sent to the chat are recorded as effects;
    the clock, the translator, the image service and the insert statement
    are inputs gathered in a `World`. */
module BotModel {
  import opened Wrappers
  import opened Models
  import Codec
  import Crud
  import Reports
  import Dispatch

  /** The parts of an incoming text message the handlers read. An absent
      first name is the empty string. */
  datatype Message = Message(
    chatId: int,
    messageId: int,
    text: string,
    firstName: string,
    username: string,
    languageCode: string)

  /** `message.from_user.first_name or message.from_user.username` */
  function UserName(m: Message): string {
    if m.firstName != "" then m.firstName else m.username
  }

  /** What `generate_image` does for the prompt: returns a list of
      artifacts (possibly empty), or raises. */
  datatype ImageOutcome = Artifacts(count: nat) | ServiceFailure

  /** Everything outside the bot that one message's handling depends on:
      the time, whether the insert statement fails, what `translate` gives
      (None when it raises) and what the image service does. */
  datatype World = World(now: Timestamp, insertRaises: bool, translation: Option<string>, images: ImageOutcome)

  /** Messages the bot sends, by kind. */
  datatype Effect =
    | MainMenu                                                 // send_main_menu
    | Welcome(userName: string)                                // /start, /menu
    | HistoryMessage(text: string)                             // /history
    | MonthMessage(which: Reports.Extreme, report: Reports.MonthReport)  // /low, /high
    | GenerateKeyboard                                         // "Генерировать изображение 🌄"
    | InstructionText                                          // "Инструкция ❓", /info
    | AskDescription                                           // "Начать генерацию 🎨"
    | TokensLeft(count: int)                                   // "Токены 💰", /tokens
    | NoHistory                                                // no row for the chat
    | Progress                                                 // "Идёт генерация изображения..."
    | ImageRequest(prompt: string)                             // the call to the image service
    | Photo                                                    // one artifact sent
    | DeleteProgress                                           // the progress message deleted
    | ErrorReply                                               // "Произошла ошибка: ..."
    | NoTokens                                                 // quota exhausted

  /** A handler's effects and the table it leaves. */
  datatype Outcome = Outcome(effects: seq<Effect>, rows: seq<HistoryRow>)

  /** A whole message: effects, the flag and the table afterwards. */
  datatype Turn = Turn(effects: seq<Effect>, generating: bool, rows: seq<HistoryRow>)

  // ---------------------------------------------------------------------
  // Specification of the handlers

  /** The record the command handlers log: the encrypted chat id, the user
      name, the message id, the text encrypted with the chat id, and no
      token count. Err when `encrypt` raises, which happens exactly for a
      negative chat id; the stored text then decrypts back to the message
      and starts with '/' exactly when the message does. */
  function LogEntry(m: Message): (r: Result<Entry, Codec.CodecError>)
    ensures r.Err? <==> m.chatId < 0
    ensures r.Ok? ==> r.value.chatId == Codec.DecimalString(m.chatId) && r.value.tokenCount.None?
    ensures r.Ok? ==> Codec.Caesar(r.value.message, m.chatId, Codec.Backward) == Ok(m.text)
    ensures r.Ok? ==> (Codec.IsCommandText(r.value.message) <==> Codec.IsCommandText(m.text))
  {
    Codec.EncryptedChatId(m.chatId);
    if m.chatId >= 0 then
      Codec.DecryptEncrypt(m.text, m.chatId);
      Codec.CommandPrefixKept(m.text, m.chatId, Codec.Forward);
      LogEntryOf(m)
    else
      LogEntryOf(m)
  }

  function LogEntryOf(m: Message): Result<Entry, Codec.CodecError> {
    match Codec.Caesar(Codec.DecimalString(m.chatId), m.chatId, Codec.Forward)
    case Err(e) => Err(e)
    case Ok(chatId) =>
      match Codec.Caesar(m.text, m.chatId, Codec.Forward)
      case Err(e) => Err(e)
      case Ok(text) => Ok(Entry(chatId, UserName(m), Codec.DecimalString(m.messageId), text, None))
  }

  /** The table after `crud.create()` logs the message. */
  function Logged(rows: seq<HistoryRow>, nextId: nat, m: Message, w: World): (r: seq<HistoryRow>)
    ensures rows <= r
    ensures |r| == |rows| + (if LogEntry(m).Ok? && !w.insertRaises then 1 else 0)
    ensures |r| > |rows| ==> r[|rows|].id == nextId && r[|rows|].chatId == Codec.DecimalString(m.chatId) &&
                             Codec.Caesar(r[|rows|].message, m.chatId, Codec.Backward) == Ok(m.text)
  {
    match LogEntry(m)
    case Err(_) => rows
    case Ok(e) => if w.insertRaises then rows else rows + [NewRow(e, nextId, w.now)]
  }

  /** Logging a record that encrypts appends exactly its row, unless the
      insert raises. */
  lemma LoggedOk(rows: seq<HistoryRow>, nextId: nat, m: Message, w: World, e: Entry)
    requires LogEntryOf(m) == Ok(e)
    ensures Logged(rows, nextId, m, w) == if w.insertRaises then rows else rows + [NewRow(e, nextId, w.now)]
  {
  }

  /** A logged command is invisible to both reports: logging `/history`,
      `/low` or `/high` does not change what they show. */
  lemma LoggedCommandIsInvisible(rows: seq<HistoryRow>, nextId: nat, m: Message, w: World, chatId: string)
    requires Codec.IsCommandText(m.text)
    ensures Reports.SelectHistory(Logged(rows, nextId, m, w), chatId) == Reports.SelectHistory(rows, chatId)
    ensures Reports.MonthTotals(Logged(rows, nextId, m, w), chatId) == Reports.MonthTotals(rows, chatId)
  {
    if LogEntry(m).Ok? && !w.insertRaises {
      Reports.AppendInvisible(rows, NewRow(LogEntry(m).value, nextId, w.now), chatId);
    }
  }

  /** `send_welcome`: log, greet, show the menu. */
  function WelcomeResult(rows: seq<HistoryRow>, nextId: nat, m: Message, w: World): Outcome {
    Outcome(if LogEntry(m).Ok? then [Welcome(UserName(m)), MainMenu] else [], Logged(rows, nextId, m, w))
  }

  /** `send_history`: select and decrypt first, then log, then send. */
  function HistoryResult(rows: seq<HistoryRow>, nextId: nat, m: Message, w: World): (r: Outcome)
    ensures m.chatId < 0 ==> r == Outcome([], rows)
    ensures m.chatId >= 0 ==>
              var shown := Reports.SelectHistory(rows, Codec.DecimalString(m.chatId));
              && Reports.HistoryText(UserName(m), shown, m.chatId).Ok?
              && r == Outcome([HistoryMessage(Reports.HistoryText(UserName(m), shown, m.chatId).value)],
                              Logged(rows, nextId, m, w))
  {
    Codec.EncryptedChatId(m.chatId);
    match Codec.Caesar(Codec.DecimalString(m.chatId), m.chatId, Codec.Forward)
    case Err(_) => Outcome([], rows)
    case Ok(chatId) =>
      var shown := Reports.SelectHistory(rows, chatId);
      assert m.chatId >= 0 ==> Reports.DecryptAll(shown, m.chatId).Ok? by {
        if m.chatId >= 0 { Reports.DecryptAllTotal(shown, m.chatId); }
      }
      match Reports.HistoryText(UserName(m), shown, m.chatId)
      case Err(_) => Outcome([], rows)
      case Ok(text) => Outcome(if LogEntry(m).Ok? then [HistoryMessage(text)] else [], Logged(rows, nextId, m, w))
  }

  /** `send_low_months` and `send_high_months`: log, then report over the
      table that now holds the log row. For a command text (the only texts
      these handlers receive) the report is the one over the table before. */
  function MonthResult(rows: seq<HistoryRow>, nextId: nat, m: Message, w: World, which: Reports.Extreme): (r: Outcome)
    ensures m.chatId < 0 ==> r == Outcome([], rows)
    ensures m.chatId >= 0 && Codec.IsCommandText(m.text) ==>
              r == Outcome([MonthMessage(which, Reports.ReportMonths(rows, m.chatId, which))], Logged(rows, nextId, m, w))
  {
    if LogEntry(m).Err? then
      Outcome([], rows)
    else
      var after := Logged(rows, nextId, m, w);
      assert Codec.IsCommandText(m.text) ==>
               Reports.MonthTotals(after, Codec.DecimalString(m.chatId)) ==
               Reports.MonthTotals(rows, Codec.DecimalString(m.chatId)) by {
        if Codec.IsCommandText(m.text) {
          LoggedCommandIsInvisible(rows, nextId, m, w, Codec.DecimalString(m.chatId));
        }
      }
      Outcome([MonthMessage(which, Reports.ReportMonths(after, m.chatId, which))], after)
  }

  /** `handle_generate_settings`: the stored count of the chat's first row,
      or the no-history reply; nothing when encrypting the id raises. */
  function TokenReply(rows: seq<HistoryRow>, m: Message): (r: seq<Effect>)
    ensures m.chatId < 0 ==> r == []
    ensures m.chatId >= 0 ==>
              var chatId := Codec.DecimalString(m.chatId);
              && (r == [NoHistory] <==> forall j :: 0 <= j < |rows| ==> rows[j].chatId != chatId)
              && (r != [NoHistory] ==> exists j :: 0 <= j < |rows| && rows[j].chatId == chatId &&
                                         r == [TokensLeft(rows[j].tokenCount)])
  {
    Codec.EncryptedChatId(m.chatId);
    match Codec.Caesar(Codec.DecimalString(m.chatId), m.chatId, Codec.Forward)
    case Err(_) => []
    case Ok(chatId) =>
      match FirstMatch(rows, chatId)
      case None => [NoHistory]
      case Some(k) => [TokensLeft(rows[k].tokenCount)]
  }

  function Photos(n: nat): seq<Effect> {
    seq(n, _ => Photo)
  }

  /** The row `generate_and_send_image` appends: the quota row's count goes
      through `_store_data`, which lowers it once more. */
  function GenerationRow(id: nat, chatId: string, m: Message, message: string, quota: int, now: Timestamp): HistoryRow {
    HistoryRow(id, chatId, UserName(m), Codec.DecimalString(m.messageId), message, quota - 1, now)
  }

  /** `generate_and_send_image(message, prompt)`. Any exception before the
      quota check ends it silently; a refused check sends the no-tokens reply;
      an allowed one calls the image service, and a failure there, or in the
      steps after it, is answered with the error reply. */
  function GenerationResult(rows: seq<HistoryRow>, nextId: nat, m: Message, prompt: string, w: World): Outcome {
    match Codec.Caesar(Codec.DecimalString(m.chatId), m.chatId, Codec.Forward)
    case Err(_) => Outcome([], rows)
    case Ok(chatId) =>
      var c := ConsumeToken(rows, chatId, w.now);
      if !c.allowed then
        Outcome([NoTokens], rows)
      else
        match w.images
        case ServiceFailure => Outcome([Progress, ImageRequest(prompt), ErrorReply], c.rows)
        case Artifacts(n) =>
          var shown := [Progress, ImageRequest(prompt)] + Photos(n) + [DeleteProgress, MainMenu];
          var quota := c.rows[FirstMatch(c.rows, chatId).value].tokenCount;
          match Codec.Caesar(m.text, m.chatId, Codec.Forward)
          case Err(_) => Outcome(shown + [ErrorReply], c.rows)
          case Ok(message) =>
            Outcome(shown, if w.insertRaises then c.rows
                           else c.rows + [GenerationRow(nextId, chatId, m, message, quota, w.now)])
  }

  /** The quota gate: when the check is refused, no image is requested and
      no row is written. */
  lemma QuotaGate(rows: seq<HistoryRow>, nextId: nat, m: Message, prompt: string, w: World)
    requires m.chatId >= 0
    requires !ConsumeToken(rows, Codec.DecimalString(m.chatId), w.now).allowed
    ensures GenerationResult(rows, nextId, m, prompt, w) == Outcome([NoTokens], rows)
  {
    Codec.EncryptedChatId(m.chatId);
  }

  /** The effects of an allowed check hold one image request, second. */
  lemma {:induction false} SingleRequest(prompt: string, n: nat, tail: seq<Effect>, p: string)
    requires forall i :: 0 <= i < |tail| ==> !tail[i].ImageRequest?
    ensures ImageRequest(p) in [Progress, ImageRequest(prompt)] + Photos(n) + tail <==> p == prompt
  {
    var s := [Progress, ImageRequest(prompt)] + Photos(n) + tail;
    assert s[1] == ImageRequest(prompt);
    forall i | 0 <= i < |s| && i != 1 ensures !s[i].ImageRequest? {
      if 2 <= i < 2 + n {
        assert s[i] == Photos(n)[i - 2];
      } else if i >= 2 + n {
        assert s[i] == tail[i - 2 - n];
      }
    }
  }

  /** The image service is called exactly when the chat id encrypts and the
      quota check allows it, and then with the prompt given. */
  lemma ImageRequestedOnlyWhenAllowed(rows: seq<HistoryRow>, nextId: nat, m: Message, prompt: string, w: World, p: string)
    ensures ImageRequest(p) in GenerationResult(rows, nextId, m, prompt, w).effects <==>
              p == prompt && m.chatId >= 0 && ConsumeToken(rows, Codec.DecimalString(m.chatId), w.now).allowed
  {
    Codec.EncryptedChatId(m.chatId);
    if m.chatId >= 0 && ConsumeToken(rows, Codec.DecimalString(m.chatId), w.now).allowed {
      match w.images
      case ServiceFailure =>
        SingleRequest(prompt, 0, [ErrorReply], p);
        assert [Progress, ImageRequest(prompt)] + Photos(0) + [ErrorReply] == [Progress, ImageRequest(prompt), ErrorReply];
      case Artifacts(n) =>
        Codec.NonNegativeKeyTotal(m.text, m.chatId, Codec.Forward);
        SingleRequest(prompt, n, [DeleteProgress, MainMenu], p);
    }
  }

  /** After an allowed check and a successful generation exactly one row is
      appended behind the updated quota row: it holds the chat id, the
      encrypted text of the message (which decrypts back to it), and one less
      than the quota row's count. */
  lemma GenerationAppendsOneRow(rows: seq<HistoryRow>, nextId: nat, m: Message, prompt: string, w: World)
    requires m.chatId >= 0 && w.images.Artifacts? && !w.insertRaises
    requires ConsumeToken(rows, Codec.DecimalString(m.chatId), w.now).allowed
    ensures var chatId := Codec.DecimalString(m.chatId);
            var c := ConsumeToken(rows, chatId, w.now);
            var after := GenerationResult(rows, nextId, m, prompt, w).rows;
            && |after| == |rows| + 1
            && after[..|rows|] == c.rows
            && after[|rows|].chatId == chatId
            && Codec.Caesar(m.text, m.chatId, Codec.Forward) == Ok(after[|rows|].message)
            && Codec.Caesar(after[|rows|].message, m.chatId, Codec.Backward) == Ok(m.text)
            && after[|rows|].tokenCount == c.rows[FirstMatch(rows, chatId).value].tokenCount - 1
  {
    Codec.EncryptedChatId(m.chatId);
    Codec.DecryptEncrypt(m.text, m.chatId);
    var c := ConsumeToken(rows, Codec.DecimalString(m.chatId), w.now);
    assert |c.rows| == |rows|;
  }

  /** The description handler's part of a message (the handler at
      my_bot/my_bot.py:514): nothing while the flag is clear; otherwise the prompt,
      translated for "ru" users, goes to `generate_and_send_image` and the
      flag is cleared. A failing translation is answered with the error
      reply and leaves the flag set. */
  function DescriptionResult(generating: bool, rows: seq<HistoryRow>, nextId: nat, m: Message, w: World): Turn {
    if !generating then
      Turn([], generating, rows)
    else if m.text == Dispatch.BackLabel then
      Turn([MainMenu], false, rows)
    else if m.languageCode == "ru" && w.translation.None? then
      Turn([ErrorReply], generating, rows)
    else
      var prompt := if m.languageCode == "ru" then w.translation.value else m.text;
      var o := GenerationResult(rows, nextId, m, prompt, w);
      Turn(o.effects, false, o.rows)
  }

  /** One text message handled by the bot. */
  function Handle(generating: bool, rows: seq<HistoryRow>, nextId: nat, m: Message, w: World): Turn {
    match Dispatch.Route(generating, m.text)
    case SendWelcome =>
      var o := WelcomeResult(rows, nextId, m, w); Turn(o.effects, generating, o.rows)
    case SendHistory =>
      var o := HistoryResult(rows, nextId, m, w); Turn(o.effects, generating, o.rows)
    case SendLowMonths =>
      var o := MonthResult(rows, nextId, m, w, Reports.Lowest); Turn(o.effects, generating, o.rows)
    case SendHighMonths =>
      var o := MonthResult(rows, nextId, m, w, Reports.Highest); Turn(o.effects, generating, o.rows)
    case GenerateButton => Turn([GenerateKeyboard], false, rows)
    case Instructions => Turn([InstructionText], generating, rows)
    case GenerateStart => Turn([AskDescription], true, rows)
    case TokenInfo => Turn(TokenReply(rows, m), generating, rows)
    case ReturnToMenu => Turn([MainMenu], generating, rows)
    case Description => DescriptionResult(generating, rows, nextId, m, w)
  }

  /** The bot follows the session rules of the dispatch: the flag afterwards
      is the dispatch's, an image is requested only for the dispatch's
      prompt, and the handlers that neither log nor generate leave the table
      as it was. */
  lemma HandleFollowsDispatch(generating: bool, rows: seq<HistoryRow>, nextId: nat, m: Message, w: World, p: string)
    ensures var s := Dispatch.Dispatch(generating, m.text, m.languageCode, w.translation);
            Handle(generating, rows, nextId, m, w).generating == s.generating
    ensures var s := Dispatch.Dispatch(generating, m.text, m.languageCode, w.translation);
            ImageRequest(p) in Handle(generating, rows, nextId, m, w).effects ==> s.prompt == Some(p)
    ensures var s := Dispatch.Dispatch(generating, m.text, m.languageCode, w.translation);
            s.handler in {Dispatch.GenerateButton, Dispatch.Instructions, Dispatch.GenerateStart,
                          Dispatch.TokenInfo, Dispatch.ReturnToMenu} || (s.handler == Dispatch.Description && s.prompt.None?)
            ==> Handle(generating, rows, nextId, m, w).rows == rows
  {
    var s := Dispatch.Dispatch(generating, m.text, m.languageCode, w.translation);
    var t := Handle(generating, rows, nextId, m, w);
    if s.handler == Dispatch.Description && s.prompt.Some? {
      ImageRequestedOnlyWhenAllowed(rows, nextId, m, s.prompt.value, w, p);
    }
  }

  // ---------------------------------------------------------------------
  // The bot

  class Bot {
    /** `self.is_generating`: one flag for all chats. */
    var isGenerating: bool

    /** The `History` table the handlers read and append to. */
    const table: HistoryTable

    ghost predicate Valid()
      reads table
    {
      table.Valid()
    }

    constructor (table: HistoryTable)
      requires table.Valid()
      ensures Valid() && !isGenerating && this.table == table
    {
      isGenerating := false;
      this.table := table;
    }

    /** `self.crud.create()(db, History, {...})` with the log record; false
        when computing the record raises. */
    method Log(m: Message, w: World) returns (ok: bool)
      requires Valid()
      modifies table
      ensures Valid()
      ensures table.nextId == old(table.nextId) + |table.rows| - |old(table.rows)|
      ensures ok == LogEntry(m).Ok?
      ensures table.rows == Logged(old(table.rows), old(table.nextId), m, w)
    {
      var chatId := Codec.Encrypt(Codec.DecimalString(m.chatId), m.chatId);
      if chatId.Err? {
        assert LogEntryOf(m).Err?;
        return false;
      }
      var text := Codec.Encrypt(m.text, m.chatId);
      if text.Err? {
        assert LogEntryOf(m).Err?;
        return false;
      }
      var entry := Entry(chatId.value, UserName(m), Codec.DecimalString(m.messageId), text.value, None);
      assert LogEntryOf(m) == Ok(entry);
      LoggedOk(table.rows, table.nextId, m, w, entry);
      ghost var before := table.rows;
      ghost var id := table.nextId;
      Crud.StoreData(table, [entry], w.now, w.insertRaises);
      if !w.insertRaises {
        assert Crud.StoredAs(table.rows[|before| + 0], [entry][0], w.now) && table.rows[|before| + 0].id == id + 0;
        Crud.StoredOne(before, table.rows, entry, id, w.now);
      }
      return true;
    }

    method SendWelcome(m: Message, w: World) returns (effects: seq<Effect>)
      requires Valid()
      modifies table
      ensures Valid()
      ensures table.nextId == old(table.nextId) + |table.rows| - |old(table.rows)|
      ensures Outcome(effects, table.rows) == WelcomeResult(old(table.rows), old(table.nextId), m, w)
    {
      var ok := Log(m, w);
      if !ok {
        return [];
      }
      effects := [Welcome(UserName(m)), MainMenu];
    }

    method SendHistory(m: Message, w: World) returns (effects: seq<Effect>)
      requires Valid()
      modifies table
      ensures Valid()
      ensures table.nextId == old(table.nextId) + |table.rows| - |old(table.rows)|
      ensures Outcome(effects, table.rows) == HistoryResult(old(table.rows), old(table.nextId), m, w)
    {
      var chatId := Codec.Encrypt(Codec.DecimalString(m.chatId), m.chatId);
      if chatId.Err? {
        return [];
      }
      var entries := Reports.SelectHistory(table.rows, chatId.value);
      var text := Reports.FormatHistory(UserName(m), entries, m.chatId);
      if text.Err? {
        return [];
      }
      var ok := Log(m, w);
      if !ok {
        return [];
      }
      effects := [HistoryMessage(text.value)];
    }

    /** `send_low_months` (Lowest) and `send_high_months` (Highest). */
    method SendMonths(m: Message, w: World, which: Reports.Extreme) returns (effects: seq<Effect>)
      requires Valid()
      modifies table
      ensures Valid()
      ensures table.nextId == old(table.nextId) + |table.rows| - |old(table.rows)|
      ensures Outcome(effects, table.rows) == MonthResult(old(table.rows), old(table.nextId), m, w, which)
    {
      var ok := Log(m, w);
      if !ok {
        return [];
      }
      var report := Reports.ReportMonths(table.rows, m.chatId, which);
      effects := [MonthMessage(which, report)];
    }

    method HandleTokens(m: Message) returns (effects: seq<Effect>)
      ensures effects == TokenReply(table.rows, m)
    {
      var chatId := Codec.Encrypt(Codec.DecimalString(m.chatId), m.chatId);
      if chatId.Err? {
        return [];
      }
      var userHistory := table.Get(chatId.value);
      if userHistory.None? {
        return [NoHistory];
      }
      effects := [TokensLeft(userHistory.value.tokenCount)];
    }

    method GenerateAndSendImage(m: Message, prompt: string, w: World) returns (effects: seq<Effect>)
      requires Valid()
      modifies table
      ensures Valid()
      ensures table.nextId == old(table.nextId) + |table.rows| - |old(table.rows)|
      ensures Outcome(effects, table.rows) == GenerationResult(old(table.rows), old(table.nextId), m, prompt, w)
    {
      var chatId := Codec.Encrypt(Codec.DecimalString(m.chatId), m.chatId);
      if chatId.Err? {
        return [];
      }
      var allowed := table.UpdateTokenCount(chatId.value, w.now);
      if !allowed {
        return [NoTokens];
      }
      effects := [Progress, ImageRequest(prompt)];
      if w.images.ServiceFailure? {
        return effects + [ErrorReply];
      }
      for i := 0 to w.images.count
        invariant effects == [Progress, ImageRequest(prompt)] + Photos(i)
      {
        assert Photos(i + 1) == Photos(i) + [Photo];
        effects := effects + [Photo];
      }
      effects := effects + [DeleteProgress, MainMenu];
      var userHistory := table.Get(chatId.value);
      var text := Codec.Encrypt(m.text, m.chatId);
      if text.Err? {
        return effects + [ErrorReply];
      }
      var entry := Entry(chatId.value, UserName(m), Codec.DecimalString(m.messageId), text.value,
                         Some(userHistory.value.tokenCount));
      ghost var before := table.rows;
      ghost var id := table.nextId;
      Crud.StoreData(table, [entry], w.now, w.insertRaises);
      if !w.insertRaises {
        assert Crud.StoredAs(table.rows[|before| + 0], [entry][0], w.now) && table.rows[|before| + 0].id == id + 0;
        Crud.StoredOne(before, table.rows, entry, id, w.now);
        assert NewRow(Crud.Decremented(entry), id, w.now) ==
               GenerationRow(id, chatId.value, m, text.value, userHistory.value.tokenCount, w.now);
      }
    }

    /** The description handler registered at my_bot/my_bot.py:514. */
    method HandleDescription(m: Message, w: World) returns (effects: seq<Effect>)
      requires Valid()
      modifies this, table
      ensures Valid()
      ensures table.nextId == old(table.nextId) + |table.rows| - |old(table.rows)|
      ensures Turn(effects, isGenerating, table.rows) ==
                DescriptionResult(old(isGenerating), old(table.rows), old(table.nextId), m, w)
    {
      if !isGenerating {
        return [];
      }
      if m.text == Dispatch.BackLabel {
        effects := [MainMenu];
        isGenerating := false;
      } else {
        var description := m.text;
        if m.languageCode == "ru" {
          if w.translation.None? {
            return [ErrorReply];
          }
          description := w.translation.value;
        }
        effects := GenerateAndSendImage(m, description, w);
        isGenerating := false;
      }
    }

    /** One text message: the first handler in registration order that takes
        it runs. */
    method HandleMessage(m: Message, w: World) returns (effects: seq<Effect>)
      requires Valid()
      modifies this, table
      ensures Valid()
      ensures table.nextId == old(table.nextId) + |table.rows| - |old(table.rows)|
      ensures Turn(effects, isGenerating, table.rows) ==
                Handle(old(isGenerating), old(table.rows), old(table.nextId), m, w)
    {
      var handler := Dispatch.Route(isGenerating, m.text);
      match handler
      case SendWelcome => effects := SendWelcome(m, w);
      case SendHistory => effects := SendHistory(m, w);
      case SendLowMonths => effects := SendMonths(m, w, Reports.Lowest);
      case SendHighMonths => effects := SendMonths(m, w, Reports.Highest);
      case GenerateButton =>
        isGenerating := false;
        effects := [GenerateKeyboard];
      case Instructions => effects := [InstructionText];
      case GenerateStart =>
        isGenerating := true;
        effects := [AskDescription];
      case TokenInfo => effects := HandleTokens(m);
      case ReturnToMenu => effects := [MainMenu];
      case Description => effects := HandleDescription(m, w);
    }
  }
}
