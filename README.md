# Master-felt-tip-pen, modelled in Dafny

Master-felt-tip-pen is a Telegram bot that generates images from text
descriptions. It keeps a `History` table of what each chat sent, and this
table is also the daily token quota. The project models the bot's core:

- the Caesar-style `encrypt`/`decrypt` pair, applied to chat ids and message
  texts before they are stored;
- the `History` record and its quota check `update_token_count`;
- the two CRUD helpers, `_store_data` and `_retrieve_all_data`;
- the `/history` query and its text;
- the month statistics behind `/low` and `/high`;
- `generate_and_send_image`;
- the handler chain of `Bot.start`, together with the single `is_generating`
  flag that it reads and writes.

Files:

- `wrappers.dfy`: the `Option` and `Result` types.
- `codec.dfy` (module `Codec`): how `str(int)` prints an integer, and the
  codec.
  - `Caesar` is the function both directions are specified by.
  - `Encrypt` and `Decrypt` are the loops of the source.
- `sorting.dfy` (module `Sorting`): a stable insertion sort on an integer key.
  It stands in for `ORDER BY`.
- `models.dfy` (module `Models`): the table, the `HistoryRow` and `Entry`
  records, and the class `HistoryTable`.
  - The quota check is specified by `ConsumeToken`.
- `crud.dfy` (module `Crud`): `_store_data` and `_retrieve_all_data`.
- `reports.dfy` (module `Reports`): the two read-only reports.
- `dispatch.dfy` (module `Dispatch`): how the chat library routes a text
  message to the first matching handler, and how the flag evolves.
- `bot.dfy` (module `BotModel`): the class `Bot`.
  - It holds the `isGenerating` field and the table.
  - Each of its methods is proved equal to a specification function of the
    same module.

The bot's surroundings become inputs, gathered in a `World`: the time, the
translator, the image service, and whether the insert statement fails.
Messages sent to the chat become `Effect` values.

## Model

| member | source | states |
|---|---|---|
| Codec.Caesar | my_bot/my_bot.py:29-90 | It fails exactly when some position of the text reads a non-digit of `str(key)`. Otherwise it keeps the length, keeps every character in its alphabet (Latin or Cyrillic, lower or upper case), and leaves every non-letter unchanged. |
| Codec.Encrypt | my_bot/my_bot.py:29-58 | The loop that appends one shifted character per position computes `Caesar(text, key, Forward)`. This includes the failure for a negative key. |
| Codec.Decrypt | my_bot/my_bot.py:61-90 | The same loop with the shift subtracted computes `Caesar(text, key, Backward)`. |
| Codec.KeyShiftIsKeyDigit | my_bot/my_bot.py:43-46 | For a non-negative key, the shift at position i is the key's decimal digit at position `i mod len(str(key))`, counted from the most significant digit. |
| Codec.DecimalString | my_bot/my_bot.py:41-43 | `str(n)` for a Python int. Its properties are stated by `Codec.DecimalStringShape`, `Codec.DecimalStringRoundTrip` and `Codec.DecimalStringInjective`. |
| Codec.KeyShift | my_bot/my_bot.py:43-46 | `int(str(key)[i % len(str(key))])`: a digit below 10 for every position when the key is non-negative. For a negative key, no shift exactly at the positions that read the '-', i.e. those that are 0 modulo `len(str(key))`. |
| Codec.ShiftChar | my_bot/my_bot.py:47-56 | A letter stays in its own alphabet (a–z, A–Z, а–я or А–Я), and any other character is returned unchanged. |
| Codec.NonNegativeKeyTotal | my_bot/my_bot.py:41-46 | With a non-negative key, neither `encrypt` nor `decrypt` raises, whatever the text. |
| Codec.DecryptEncrypt | my_bot/my_bot.py:29-90 | `decrypt(encrypt(s, k), k) == s` for every text and non-negative key. |
| Codec.EncryptDecrypt | my_bot/my_bot.py:29-90 | `encrypt(decrypt(s, k), k) == s`: the codec is a bijection on strings. |
| Codec.NegativeKey | my_bot/my_bot.py:41-46 | A negative key raises on every non-empty text, because position 0 reads the '-', and returns "" on the empty text. |
| Codec.KeyZeroIsIdentity | my_bot/my_bot.py:45-56 | Key 0 leaves every text unchanged. |
| Codec.NoLetterUnchanged | my_bot/my_bot.py:55-56 | A text without Latin or Cyrillic letters comes back unchanged under any non-negative key. |
| Codec.EncryptedChatId | my_bot/my_bot.py:170 | `encrypt(chat_id, chat_id)` is `str(chat_id)` for a non-negative id and raises for a negative one. |
| Codec.CommandPrefixKept | my_bot/my_bot.py:279-281 | An encrypted text starts with '/' exactly when the plaintext does, so the stored-column filter excludes the plaintext commands. |
| Codec.DecimalStringShape | my_bot/my_bot.py:41-43 | `str(n)` is non-empty, starts with '-' exactly when n < 0, and is all digits after that sign. |
| Codec.DecimalStringRoundTrip | my_bot/my_bot.py:41-43 | Parsing `str(n)` gives n back. |
| Codec.DecimalStringInjective | my_bot/my_bot.py:170 | Distinct chat ids are stored as distinct strings. |
| Sorting.SortBy | my_bot/my_bot.py:283 | The result is ordered by the key, and it is a permutation of the input. |
| Models.FirstMatch | database/common/models.py:53 | `History.get` returns the first row of the chat in table order, or DoesNotExist when there is none. |
| Models.ConsumeToken | database/common/models.py:41-67 | The quota check touches only the chat's first row and keeps the table's length. A refusal writes nothing. When allowed, the first row of the chat stays the same row. |
| Models.ConsumeWithoutRow | database/common/models.py:66-67 | A chat without a row is refused, and the table is left unchanged. |
| Models.ConsumeOnNewDay | database/common/models.py:55-63 | The first check on a later day is allowed whatever the stored count. It leaves 49, stamped with the current time, and keeps the row's other fields. |
| Models.ConsumeOnSameDay | database/common/models.py:59-65 | On the same day, the check is allowed exactly when the stored count is positive. It then lowers the count by one, stamps the row, and changes nothing else. |
| Models.ConsumeKeepsCountNonNegative | database/common/models.py:55-63 | The check never takes a non-negative count below zero. |
| Models.ConsumeRepeatedlySameDay | database/common/models.py:59-65 | n same-day checks from a balance b ≥ 0 are allowed min(n, b) times and leave max(b − n, 0). |
| Models.FirstMatchAfterUpdate | database/common/models.py:53-62 | Saving the fetched row in place keeps it the first match of its chat. |
| Models.HistoryTable.Get | database/common/models.py:53 | The result is None exactly when no row has the chat id. Otherwise it is the first row of the chat in table order, the row `History.get` returns. |
| Models.HistoryTable.UpdateTokenCount | database/common/models.py:41-67 | The answer and the new rows are those of `ConsumeToken`. Ids are kept increasing. |
| Models.HistoryTable.InsertMany | database/utils/CRUD.py:41 | The entries are appended in order after the existing rows. Each gets a fresh increasing id, `token_count` defaults to 10, and `last_generated_at` defaults to now. |
| Crud.StoreData | database/utils/CRUD.py:24-44 | Existing rows are kept. Without an insert error, each entry is appended once, in argument order, with its given token count minus one (or the default 10). With an insert error, the table is unchanged. The next id advances by exactly the number of rows appended. |
| Crud.RetrieveAllData | database/utils/CRUD.py:47-64 | Every row is returned in table order, without filtering. |
| Reports.VisibleRows | my_bot/my_bot.py:277-282 | A row passes the WHERE clause exactly when it belongs to the chat and its stored message does not start with '/'. |
| Reports.SelectHistory | my_bot/my_bot.py:277-285 | The query returns min(visible, 10) rows. All of them are visible rows of the table, without duplication beyond the table's, newest first. A visible row is left out only when ten are shown, and it is then no newer than the last one shown. |
| Reports.FormatHistory | my_bot/my_bot.py:287-289 | The loop builds the header plus one "Сообщение: …" line per decrypted entry, or fails at the first entry that does not decrypt. |
| Reports.DecryptAll | my_bot/my_bot.py:288-289 | The decryption of the shown rows fails exactly when one of the rows fails to decrypt. Otherwise it gives one plaintext per row, in order, each the decryption of that row's message. |
| Reports.HistoryText | my_bot/my_bot.py:287-289 | The `/history` text: the header and one line per decrypted entry. Its properties are stated by `Reports.FormatHistory`, `Reports.HistoryShowsPlaintexts` and `Reports.DecryptAllFailsOnPrefix`. |
| Reports.DecryptAllTotal | my_bot/my_bot.py:289 | For a non-negative chat id, decrypting the history never raises. |
| Reports.HistoryShowsPlaintexts | my_bot/my_bot.py:287-289 | When every shown row holds the encryption of a plaintext, the reply lists exactly those plaintexts, in order. |
| Reports.DecryptAllOfEncrypted | my_bot/my_bot.py:289 | Decrypting rows stored by `encrypt` with the same key gives back the original texts. |
| Reports.DecryptAllFailsOnPrefix | my_bot/my_bot.py:288-289 | A decryption error on some entry is the error of the whole reply. |
| Reports.MonthsOf | my_bot/my_bot.py:326-335 | The groups are the months of the chat's visible rows, each listed once. |
| Reports.MonthTotals | my_bot/my_bot.py:326-337 | Each group's total is the count of visible rows in that month and is positive. Every visible row's month has exactly one group, taking `group_by("month")` to name the month alias. The result is empty exactly when there is no visible row, and it is ordered by total. |
| Reports.AppendInvisible | my_bot/my_bot.py:277-285 | A new row that the reports do not see changes neither the history selection nor the month totals. |
| Reports.Pick | my_bot/my_bot.py:339-340 | `min`/`max` with a key: None exactly for an empty query. Otherwise it returns the first pair whose total is ≤ (for `min`) or ≥ (for `max`) every other. |
| Reports.ReportMonths | my_bot/my_bot.py:326-349 | The `/low` and `/high` reply: "no requests", or the month `min`/`max` picks. What it means is stated by `Reports.ReportMonthsMeaning`. |
| Reports.ReportMonthsMeaning | my_bot/my_bot.py:326-349 | The report is "no requests" exactly when the user has no visible row. Otherwise it names a month with a positive count that is ≤ (for `/low`) or ≥ (for `/high`) the count of every month the user used. |
| Dispatch.ExtractCommand | my_bot/my_bot.py:226 | There is a command exactly when the text starts with '/'. The command is the rest of the first word, with no whitespace or '@' in it, and ends at a space, an '@' or the end of the text. |
| Dispatch.Route | my_bot/my_bot.py:226-514 | Each handler is chosen exactly under its own filter, and the first registered one wins. "Начать генерацию 🎨" is taken only while not generating. |
| Dispatch.Dispatch | my_bot/my_bot.py:399-534 | The start label sets the flag and the generate button clears it. "Вернуться в меню ⬅️" keeps it. A prompt is produced exactly while generating, for a description whose translation (for "ru") succeeds, and then it clears the flag. A failed translation gives the error reply and keeps the flag set. Only the start label can set the flag. |
| Dispatch.CommandOf | my_bot/my_bot.py:226 | "/name" followed by a space, an '@' or the end of the text is the command "name". |
| Dispatch.BackNeverReachesDescription | my_bot/my_bot.py:502-526 | The description handler never sees "Вернуться в меню ⬅️", so its branch at line 524 is dead. |
| Dispatch.IdleNeverGenerates | my_bot/my_bot.py:459-534 | With the flag clear, no text starts a generation, and only "Начать генерацию 🎨" sets the flag. |
| Dispatch.StartLabelWhileGenerating | my_bot/my_bot.py:459-532 | For a user whose language code is not "ru", "Начать генерацию 🎨" sent while generating becomes the prompt itself. |
| Dispatch.StartThenDescribe | my_bot/my_bot.py:459-532 | The start button followed by an ordinary description starts exactly one generation with that description (translated for "ru"), and clears the flag. |
| BotModel.LogEntry | my_bot/my_bot.py:291-300 | The log record fails exactly for a negative chat id. Otherwise it stores `str(chat_id)` and no token count, and its message decrypts back to the text and starts with '/' exactly when the text does. |
| BotModel.Logged | my_bot/my_bot.py:239-248 | The table after the log: the old rows are kept as a prefix. Exactly one row is appended when the record encrypts and the insert does not raise. That row has the next id and the stored chat id, and its message decrypts back to the text. |
| BotModel.LoggedOk | my_bot/my_bot.py:239-248 | When the record encrypts, the log appends exactly the row built from it, or nothing when the insert raises. |
| BotModel.WelcomeResult | my_bot/my_bot.py:226-262 | `send_welcome`: log, greet, then the main menu. `BotModel.Bot.SendWelcome` is proved to do exactly this, and `BotModel.Logged` states the logging. |
| BotModel.LoggedCommandIsInvisible | my_bot/my_bot.py:316-337 | Logging a command changes neither the history nor the month report, so logging before the query in `/low` and `/high` is harmless. |
| BotModel.HistoryResult | my_bot/my_bot.py:264-301 | A negative id gives no reply and no change. Otherwise the query runs before the log, the decryption cannot fail, and the reply is the text of the selection over the table as it was before. |
| BotModel.MonthResult | my_bot/my_bot.py:303-397 | A negative id gives no reply and no change. For a command text, the report is the one over the table before the log row. |
| BotModel.TokenReply | my_bot/my_bot.py:480-500 | The reply is "no history" exactly when the chat has no row. Otherwise it is the stored count of one of the chat's rows. |
| BotModel.QuotaGate | my_bot/my_bot.py:170-211 | A refused quota check sends only the no-tokens reply and leaves the table as it was. |
| BotModel.ImageRequestedOnlyWhenAllowed | my_bot/my_bot.py:170-181 | The image service is called exactly when the chat id encrypts and the quota check allows it, and then only with the given prompt. |
| BotModel.GenerationAppendsOneRow | my_bot/my_bot.py:190-204 | A successful generation appends exactly one row after the updated table. The row holds the chat id and the encrypted message, which decrypts back. Its count is one less than the quota row's count. |
| BotModel.GenerationResult | my_bot/my_bot.py:158-215 | `generate_and_send_image` as a function of the table and the world. Its properties are stated by `BotModel.QuotaGate`, `BotModel.ImageRequestedOnlyWhenAllowed` and `BotModel.GenerationAppendsOneRow`. |
| BotModel.DescriptionResult | my_bot/my_bot.py:514-534 | The description handler: nothing while not generating; otherwise translate for "ru", generate, and clear the flag. A failed translation gives the error reply and keeps the flag. Its flag and prompt are those of `Dispatch.Dispatch`, by `BotModel.HandleFollowsDispatch`. |
| BotModel.Handle | my_bot/my_bot.py:217-547 | One text message, run by the first handler whose filter takes it. `BotModel.HandleFollowsDispatch` ties it to `Dispatch.Dispatch`. |
| BotModel.HandleFollowsDispatch | my_bot/my_bot.py:226-534 | The flag after a message is the one `Dispatch` computes, and an image is requested only for `Dispatch`'s prompt. Handlers that neither log nor generate leave the table unchanged. |
| BotModel.Bot.Log | my_bot/my_bot.py:239-248 | `crud.create()` with the log record fails exactly when the record does. Otherwise it appends the record, or nothing when the insert fails. The next id advances by the number of rows appended, here and in every handler below that writes the table. |
| BotModel.Bot.SendWelcome | my_bot/my_bot.py:226-262 | The effects and the new table are those of `WelcomeResult`: log, greet, then the menu. |
| BotModel.Bot.SendHistory | my_bot/my_bot.py:264-301 | The effects and the new table are those of `HistoryResult`. |
| BotModel.Bot.SendMonths | my_bot/my_bot.py:303-397 | The effects and the new table are those of `MonthResult` for `/low` (`min`) or `/high` (`max`). |
| BotModel.Bot.HandleTokens | my_bot/my_bot.py:480-500 | The reply is `TokenReply` over the current table, and nothing is changed. |
| BotModel.Bot.GenerateAndSendImage | my_bot/my_bot.py:158-215 | The effects and the new table are those of `GenerationResult`: the quota check, the progress message, one photo per artifact, then the log row carrying the quota count. |
| BotModel.Bot.HandleDescription | my_bot/my_bot.py:514-534 | The effects, the flag and the table are those of `DescriptionResult`. |
| BotModel.Bot.HandleMessage | my_bot/my_bot.py:217-547 | One text message runs the first matching handler. The effects, the flag and the table are those of `Handle`. |

## Left out

- Telegram transport is not modelled: keyboards, markup, `reply_to` versus `send_message`, and message ids of sent messages. Sent messages are reduced to the kinds in `Effect`.
- Welcome, instruction, main-menu and error texts are reduced to constants. Their content is not modelled, only that they are sent.
- Non-text messages (photos, stickers) are not modelled. Every handler in `Bot.start` filters on text.
- The image service (`stability_API/stability_ai.py`) is not part of this model. Its HTTP call and its list of base64 artifacts become an `ImageOutcome`: a count of artifacts, or a failure. PIL and base64 decoding are left out.
- `translate` is an input (`World.translation`, None when it raises).
- The clock is an input. `update_token_count` reads `datetime.now()` twice; the model uses one instant for both reads.
- SQLite is reduced to calendar values. `strftime('%Y-%m', …)` and `.date()` are given as the `month` and `date` fields of each timestamp, and are not derived from a datetime.
- The `chat_id` column is declared `IntegerField`, but the bot stores `encrypt(id, id)` in it. The model keeps the stored value as the string `str(id)`. SQLite's type affinity, which turns such strings back into integers, is not modelled. The `/low` and `/high` filter on the raw id and the other filters on the encrypted id therefore both compare with `str(id)`.
- Reports.MonthTotals, Reports.ReportMonths: the model takes the plain strings passed to `.group_by("month")` and `.order_by("total_requests")` (`my_bot/my_bot.py:335-336` and 383-384) as references to the select's aliases `month` and `total_requests`. How peewee translates a plain string is not part of this model. If peewee sends such a string as a bound value instead, SQLite puts all of the chat's visible rows in one group, and `/low` and `/high` both report one month with the grand total; the model does not capture that reading.
- Peewee query laziness is modelled only as an order of steps. The history query runs before the log record is written, and the month query runs after it. Tie order among equal timestamps in `ORDER BY`, and among equal totals in `GROUP BY … ORDER BY`, is fixed as stable, whereas SQLite leaves it unspecified.
- `Crud.RetrieveAllData` does not model column projection: it returns whole rows.
- `database/utils/CRUD.py`'s `CRUDInterface`, the database connection, `settings.py`, `main.py`, logging and the polling loop are not part of this model.
- Concurrency is not modelled. Telebot may run handlers on worker threads, but the model handles one message at a time. `is_generating` is one flag shared by all chats, as in the source.
- BotModel.LogEntry, BotModel.WelcomeResult, BotModel.HistoryResult, BotModel.MonthResult, BotModel.TokenReply and the `Bot` methods built on them: for a negative chat id (a group chat), `encrypt(chat.id, chat.id)` at `my_bot/my_bot.py:243`, 276, 320, 368 and 491 raises outside any `try`. The exception escapes the handler into the chat library; the only catch is around `polling()` (lines 224 and 550-551). The model assumes the library swallows an exception a handler raises: it answers nothing, changes nothing, and goes on with the next message.
- BotModel.TokenReply: only states that the count comes from some row of the chat. The model's body takes the first row, as `History.get` does.

## Where the code departs from its evident intent

The model follows the code in each case:

- The catch-all handler registered last (`my_bot/my_bot.py:536-547`) is unreachable. The text handler registered before it at line 514 accepts every text message. Free text sent while no generation is pending therefore gets no reply, rather than the "cannot process your request" answer.
- The row that `generate_and_send_image` appends (`my_bot/my_bot.py:190-204`) carries the quota row's count, which `_store_data` then lowers once more (`database/utils/CRUD.py:37-39`). After the last token of the day, that row holds −1. The count is therefore not always non-negative in the table; it is non-negative only in the rows that the quota check itself writes (`Models.ConsumeKeepsCountNonNegative`).
- "Вернуться в меню ⬅️" does not cancel a pending generation: the return-to-menu handler at `my_bot/my_bot.py:502` takes that text first and leaves the flag set, so the branch at lines 524-526 is dead (`Dispatch.BackNeverReachesDescription`).
- `/tokens` (`my_bot/my_bot.py:480-500`) shows the stored count. On a new day, the stored count is not yet reset to 50, so the reply can show a stale number until the next generation.
- A translation failure (`my_bot/my_bot.py:529-530`) is answered with the error reply and leaves the flag set, because line 532 is skipped, so the next text is taken as a description again.
