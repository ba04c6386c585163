/** The handler chain registered in `Bot.start` of my_bot/my_bot.py and the
    `is_generating` flag it reads and writes.

    Assumption about the chat library (pyTelegramBotAPI): a text message is
    offered to the handlers in registration order and the first one whose
    filters all match takes it. A `commands=[...]` filter matches when the
    text starts with '/' and the word after it, cut at the first whitespace
    and then at the first '@', is in the list. Every handler here accepts
    text messages only. */
module Dispatch {
  import opened Wrappers

  /** The reply-keyboard labels the handlers compare the text with. */
  const GenerateLabel: string := "Генерировать изображение 🌄"
  const InfoLabel: string := "Инструкция ❓"
  const StartLabel: string := "Начать генерацию 🎨"
  const TokensLabel: string := "Токены 💰"
  const BackLabel: string := "Вернуться в меню ⬅️"

  /** Python's `str.isspace`, the separators of `str.split()`. */
  predicate IsSpace(c: char) {
    || ('\t' <= c <= '\r')
    || ('\U{1c}' <= c <= ' ')
    || c == '\U{85}' || c == '\U{a0}' || c == '\U{1680}'
    || ('\U{2000}' <= c <= '\U{200a}')
    || c == '\U{2028}' || c == '\U{2029}' || c == '\U{202f}' || c == '\U{205f}' || c == '\U{3000}'
  }

  predicate IsAt(c: char) {
    c == '@'
  }

  /** The longest prefix of s without a character satisfying stop. */
  function PrefixBefore(s: string, stop: char -> bool): (r: string)
    ensures |r| <= |s| && r == s[..|r|]
    ensures forall i :: 0 <= i < |r| ==> !stop(r[i])
    ensures |r| < |s| ==> stop(s[|r|])
    decreases |s|
  {
    if s == [] || stop(s[0]) then [] else [s[0]] + PrefixBefore(s[1..], stop)
  }

  /** telebot's `extract_command`: for a text starting with '/', the first
      whitespace-separated word without the '/' and without any '@bot'
      suffix; None for any other text. */
  function ExtractCommand(text: string): (r: Option<string>)
    ensures r.Some? <==> |text| > 0 && text[0] == '/'
    ensures r.Some? ==> |r.value| < |text| && text[..|r.value| + 1] == ['/'] + r.value
    ensures r.Some? ==> forall i :: 0 <= i < |r.value| ==> !IsSpace(r.value[i]) && r.value[i] != '@'
    ensures r.Some? && |r.value| + 1 < |text| ==> IsSpace(text[|r.value| + 1]) || text[|r.value| + 1] == '@'
  {
    if |text| > 0 && text[0] == '/' then
      var word := PrefixBefore(text, IsSpace);
      var name := PrefixBefore(word, IsAt);
      assert text[0] == word[0] == name[0];
      assert |name| < |text| ==> text[|name|] == (if |name| < |word| then word[|name|] else text[|word|]);
      Some(name[1..])
    else
      None
  }

  predicate IsCommand(text: string, names: set<string>) {
    ExtractCommand(text).Some? && ExtractCommand(text).value in names
  }

  /** The handlers of `Bot.start` that a text message can reach. The
      catch-all registered last is absent: the description handler before it
      accepts every text message. */
  datatype Handler =
    | SendWelcome     // commands /start and /menu
    | SendHistory     // command /history
    | SendLowMonths   // command /low
    | SendHighMonths  // command /high
    | GenerateButton  // "Генерировать изображение 🌄"
    | Instructions    // "Инструкция ❓" or "/info"
    | GenerateStart   // "Начать генерацию 🎨" while not generating
    | TokenInfo       // "Токены 💰" or "/tokens"
    | ReturnToMenu    // "Вернуться в меню ⬅️"
    | Description     // any other text

  /** The first handler in registration order that takes the text. */
  function Route(generating: bool, text: string): (h: Handler)
    ensures h == SendWelcome <==> IsCommand(text, {"start", "menu"})
    ensures h == SendHistory <==> IsCommand(text, {"history"})
    ensures h == SendLowMonths <==> IsCommand(text, {"low"})
    ensures h == SendHighMonths <==> IsCommand(text, {"high"})
    ensures h == GenerateButton <==> text == GenerateLabel
    ensures h == Instructions <==> text == InfoLabel || text == "/info"
    ensures h == GenerateStart <==> text == StartLabel && !generating
    ensures h == TokenInfo <==> text == TokensLabel || text == "/tokens"
    ensures h == ReturnToMenu <==> text == BackLabel
  {
    CommandOf("info", []);
    CommandOf("tokens", []);
    if IsCommand(text, {"start", "menu"}) then SendWelcome
    else if IsCommand(text, {"history"}) then SendHistory
    else if IsCommand(text, {"low"}) then SendLowMonths
    else if IsCommand(text, {"high"}) then SendHighMonths
    else if text == GenerateLabel then GenerateButton
    else if text == InfoLabel || text == "/info" then Instructions
    else if text == StartLabel && !generating then GenerateStart
    else if text == TokensLabel || text == "/tokens" then TokenInfo
    else if text == BackLabel then ReturnToMenu
    else Description
  }

  /** The outcome of one text message for the session: who took it, the
      prompt handed to `generate_and_send_image` (None when no generation
      is started), the flag afterwards, and whether the description
      handler replied with its error message. */
  datatype Step = Step(handler: Handler, prompt: Option<string>, generating: bool, errorReply: bool)

  /** One text message. `translation` is what `translate(text, "en")`
      gives, None when it raises; it is consulted only for a description
      from a user whose language code is "ru". */
  function Dispatch(generating: bool, text: string, languageCode: string, translation: Option<string>): (s: Step)
    ensures s.handler == Route(generating, text)
    ensures text == StartLabel && !generating ==> s.generating
    ensures text == GenerateLabel ==> !s.generating
    ensures text == BackLabel ==> s.handler == ReturnToMenu && s.generating == generating && s.prompt.None?
    ensures s.prompt.Some? <==>
              generating && s.handler == Description && !(languageCode == "ru" && translation.None?)
    ensures s.prompt.Some? ==>
              !s.generating && s.prompt.value == (if languageCode == "ru" then translation.value else text)
    ensures s.errorReply <==> generating && s.handler == Description && languageCode == "ru" && translation.None?
    ensures s.errorReply ==> s.generating == generating
    ensures s.generating != generating ==>
              s.handler == GenerateButton || s.handler == GenerateStart || s.handler == Description
    ensures !generating && s.generating ==> text == StartLabel
  {
    var h := Route(generating, text);
    match h
    case GenerateButton => Step(h, None, false, false)
    case GenerateStart => Step(h, None, true, false)
    case Description =>
      if !generating then
        Step(h, None, generating, false)
      else if text == BackLabel then
        Step(h, None, false, false)
      else if languageCode == "ru" then
        match translation
        case None => Step(h, None, generating, true)
        case Some(t) => Step(h, Some(t), false, false)
      else
        Step(h, Some(text), false, false)
    case _ => Step(h, None, generating, false)
  }

  lemma {:induction false} PrefixBeforeSkips(s: string, t: string, stop: char -> bool)
    requires forall i :: 0 <= i < |s| ==> !stop(s[i])
    ensures PrefixBefore(s + t, stop) == s + PrefixBefore(t, stop)
    decreases |s|
  {
    if s != [] {
      assert (s + t)[0] == s[0] && (s + t)[1..] == s[1..] + t;
      PrefixBeforeSkips(s[1..], t, stop);
      assert PrefixBefore(s + t, stop) == [s[0]] + (s[1..] + PrefixBefore(t, stop));
      assert s == [s[0]] + s[1..];
      assert [s[0]] + (s[1..] + PrefixBefore(t, stop)) == ([s[0]] + s[1..]) + PrefixBefore(t, stop);
    } else {
      assert s + t == t;
    }
  }

  /** The command of a text is its first word: a name without whitespace
      or '@', ended by the end of the text, a whitespace or a bot mention. */
  lemma CommandOf(name: string, tail: string)
    requires forall i :: 0 <= i < |name| ==> !IsSpace(name[i]) && name[i] != '@'
    requires tail == [] || IsSpace(tail[0]) || tail[0] == '@'
    ensures ExtractCommand(['/'] + name + tail) == Some(name)
  {
    var head := ['/'] + name;
    assert forall i :: 0 <= i < |head| ==> !IsSpace(head[i]) && !IsAt(head[i]) by {
      assert forall i :: 1 <= i < |head| ==> head[i] == name[i - 1];
    }
    PrefixBeforeSkips(head, tail, IsSpace);
    var rest := PrefixBefore(tail, IsSpace);
    PrefixBeforeSkips(head, rest, IsAt);
    assert rest == [] || rest[0] == '@';
    assert ['/'] + name + tail == head + tail;
  }

  /** The branch that clears the flag on "Вернуться в меню ⬅️" inside the
      description handler never runs: the return-to-menu handler registered
      before it takes that text, and the flag stays as it was. */
  lemma BackNeverReachesDescription(generating: bool, text: string)
    requires Route(generating, text) == Description
    ensures text != BackLabel
  {
  }

  /** While the flag is clear no text starts a generation, and only the
      "Начать генерацию 🎨" label sets the flag. */
  lemma IdleNeverGenerates(text: string, languageCode: string, translation: Option<string>)
    ensures Dispatch(false, text, languageCode, translation).prompt.None?
    ensures Dispatch(false, text, languageCode, translation).generating <==> text == StartLabel
  {
  }

  /** "Начать генерацию 🎨" pressed while already generating is not a
      button press: it falls through to the description handler and becomes
      the prompt itself (translated for "ru" users). */
  lemma StartLabelWhileGenerating(languageCode: string, translation: Option<string>)
    requires languageCode != "ru"
    ensures Dispatch(true, StartLabel, languageCode, translation) == Step(Description, Some(StartLabel), false, false)
  {
  }

  /** The session the buttons lead through: "Начать генерацию 🎨" with the
      flag clear, then a description that no other handler takes, starts
      exactly one generation with that description (or its translation) and
      clears the flag again. */
  lemma StartThenDescribe(text: string, languageCode: string, translation: Option<string>)
    requires ExtractCommand(text).None?
    requires text !in {GenerateLabel, InfoLabel, StartLabel, TokensLabel, BackLabel}
    requires languageCode == "ru" ==> translation.Some?
    ensures var first := Dispatch(false, StartLabel, languageCode, translation);
            var second := Dispatch(first.generating, text, languageCode, translation);
            && first.handler == GenerateStart && first.prompt.None?
            && second.handler == Description
            && second.prompt == Some(if languageCode == "ru" then translation.value else text)
            && !second.generating
  {
  }
}
