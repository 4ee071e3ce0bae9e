/** The two Telegram handlers the reply pipeline consists of: `/model` (`set_model`) and the
    text-message relay (`equiped_chatbot`), over a single sequential session. */
module Handlers {
  import opened Wrappers
  import opened Strings
  import opened Escaping
  import opened Chunking
  import opened Gateway

  /** One message the bot sends: to which chat, what text, and whether it is sent with
      `parse_mode=MarkdownV2` (relayed replies) or as plain text (command replies). */
  datatype Outgoing = Outgoing(chatId: int, text: string, markdownV2: bool)

  /** The state the handlers share: the gateway's `current_model` attribute, absent until
      first set, and the log of everything sent so far. */
  datatype Bot = Bot(currentModel: Option<string>, sent: seq<Outgoing>)

  const Initial: Bot := Bot(None, [])

  const UsageReply: string := "Usage: /model <chatgpt/gemini>"
  const InvalidReply: string := "Invalid model. Choose 'chatgpt' or 'gemini'."

  function SetReply(model: string): string {
    "Model set to " + model + "."
  }

  /** The selected model, when there is one, is a name the gateway accepts. */
  predicate ValidSelection(b: Bot) {
    b.currentModel.Some? ==> b.currentModel.value in SupportedNames
  }

  /** `/model` accepts its first argument, lower-cased, when it names a supported model. */
  predicate Accepts(args: seq<string>) {
    |args| > 0 && Lower(args[0]) in SupportedNames
  }

  /** `set_model`: with no argument it answers with the usage line; otherwise it lower-cases
      the first argument and either selects it or answers that it is invalid. */
  function SetModel(b: Bot, chatId: int, args: seq<string>): (b': Bot)
    ensures Accepts(args) ==> b'.currentModel == Some(Lower(args[0]))
    ensures !Accepts(args) ==> b'.currentModel == b.currentModel
    ensures ValidSelection(b) ==> ValidSelection(b')
    ensures |b'.sent| == |b.sent| + 1 && b'.sent[..|b.sent|] == b.sent
    ensures b'.sent[|b.sent|].chatId == chatId && !b'.sent[|b.sent|].markdownV2
  {
    if |args| == 0 then
      b.(sent := b.sent + [Outgoing(chatId, UsageReply, false)])
    else
      var model := Lower(args[0]);
      if model in ["chatgpt", "gemini"] then
        Bot(Some(model), b.sent + [Outgoing(chatId, SetReply(model), false)])
      else
        b.(sent := b.sent + [Outgoing(chatId, InvalidReply, false)])
  }

  /** The reply says which of the three cases happened, and an accepted name is echoed
      lower-cased. */
  lemma SetModelReplies(b: Bot, chatId: int, args: seq<string>)
    ensures SetModel(b, chatId, args).sent[|b.sent|].text ==
              if |args| == 0 then UsageReply
              else if Accepts(args) then SetReply(Lower(args[0]))
              else InvalidReply
  {
  }

  /** Capitalisation of the argument does not matter, and arguments after the first are ignored. */
  lemma SetModelIgnoresCaseAndExtras(b: Bot, chatId: int, arg: string, extra: seq<string>)
    ensures SetModel(b, chatId, [arg] + extra) == SetModel(b, chatId, [Lower(arg)])
  {
    LowerIdempotent(arg);
  }

  /** The model `equiped_chatbot` uses: the selected one, or "gemini" when none is set. */
  function ActiveModel(b: Bot): (m: string)
    ensures ValidSelection(b) ==> m in SupportedNames
    ensures b.currentModel.Some? ==> m == b.currentModel.value
    ensures b.currentModel.None? ==> m == DefaultModel
  {
    if b.currentModel.None? then DefaultModel else b.currentModel.value
  }

  /** The sends of one relayed reply: each part, escaped, to the chat, with MarkdownV2. */
  function Deliveries(chatId: int, parts: seq<string>): (out: seq<Outgoing>)
    ensures |out| == |parts|
    ensures forall i :: 0 <= i < |parts| ==> out[i] == Outgoing(chatId, Escape(parts[i]), true)
    decreases |parts|
  {
    if |parts| == 0 then [] else [Outgoing(chatId, Escape(parts[0]), true)] + Deliveries(chatId, parts[1..])
  }

  function Texts(out: seq<Outgoing>): (ts: seq<string>)
    ensures |ts| == |out|
    ensures forall i :: 0 <= i < |out| ==> ts[i] == out[i].text
  {
    seq(|out|, i requires 0 <= i < |out| => out[i].text)
  }

  /** The sent texts, joined, are the escaped concatenation of the parts. */
  lemma {:induction false} DeliveriesSpellEscape(chatId: int, parts: seq<string>)
    ensures Concat(Texts(Deliveries(chatId, parts))) == Escape(Concat(parts))
    decreases |parts|
  {
    var ts := Texts(Deliveries(chatId, parts));
    if |parts| > 0 {
      DeliveriesSpellEscape(chatId, parts[1..]);
      assert ts[1..] == Texts(Deliveries(chatId, parts[1..]));
      EscapeAppend(parts[0], Concat(parts[1..]));
    }
  }

  /** What happens to one incoming text message: its reply is delivered, `submit` raises
      its `ValueError`, or `split_message` never returns, in which case nothing is sent. */
  datatype Outcome = Delivered(bot: Bot) | Raised(bot: Bot, error: string) | Hangs(bot: Bot)

  /** `equiped_chatbot` with `split_message` as written. `complete` is the gateway's HTTP
      exchange and `maxLen` the configured message budget. The default model is stored
      before `submit` is called, so it persists even when the call raises. */
  function Relay(b: Bot, complete: (Backend, string) -> string, chatId: int, message: string, maxLen: int): (o: Outcome)
    ensures o.bot.currentModel == Some(ActiveModel(b))
    ensures ValidSelection(b) ==> ValidSelection(o.bot) && !o.Raised?
    ensures !o.Delivered? ==> o.bot.sent == b.sent
    ensures o.Delivered? ==> |o.bot.sent| >= |b.sent| + 1 && o.bot.sent[..|b.sent|] == b.sent
    ensures o.Delivered? ==>
              var r := Submit(complete, message, ActiveModel(b));
              && r.Success? && Halts(r.value, maxLen)
              && o.bot.sent == b.sent + Deliveries(chatId, SplitMessage(r.value, maxLen))
    ensures o.Raised? <==> Submit(complete, message, ActiveModel(b)).Failure?
    ensures o.Raised? ==> o.error == UnsupportedError(ActiveModel(b))
    ensures o.Hangs? ==>
              var r := Submit(complete, message, ActiveModel(b));
              r.Success? && !Halts(r.value, maxLen)
  {
    SupportedNamesLower();
    var model := ActiveModel(b);
    var b1 := b.(currentModel := Some(model));
    match Submit(complete, message, model)
    case Failure(e) => Raised(b1, e)
    case Success(reply) =>
      if Halts(reply, maxLen) then
        Delivered(b1.(sent := b1.sent + Deliveries(chatId, SplitMessage(reply, maxLen))))
      else
        Hangs(b1)
  }

  /** The reply `submit` produces for the active model, which is `complete` of its backend. */
  lemma ActiveReply(b: Bot, complete: (Backend, string) -> string, message: string)
    requires ValidSelection(b)
    ensures Submit(complete, message, ActiveModel(b)).Success?
    ensures Dispatch(ActiveModel(b)).Some?
    ensures Submit(complete, message, ActiveModel(b)).value == complete(Dispatch(ActiveModel(b)).value, message)
  {
    SupportedNamesDispatch(ActiveModel(b));
  }

  /** With a valid selection the relay delivers exactly when the loop of `split_message`
      halts on the reply; otherwise it hangs. */
  lemma RelayDeliversIffHalts(b: Bot, complete: (Backend, string) -> string, chatId: int, message: string, maxLen: int)
    requires ValidSelection(b)
    ensures Submit(complete, message, ActiveModel(b)).Success?
    ensures Relay(b, complete, chatId, message, maxLen).Delivered?
            <==> Halts(Submit(complete, message, ActiveModel(b)).value, maxLen)
    ensures Relay(b, complete, chatId, message, maxLen).Hangs?
            <==> !Halts(Submit(complete, message, ActiveModel(b)).value, maxLen)
  {
    ActiveReply(b, complete, message);
  }

  /** What a delivered relay sent: one MarkdownV2 message per part to the originating chat,
      whose texts joined are the escaped reply and each at most twice the budget. */
  lemma RelaySends(b: Bot, complete: (Backend, string) -> string, chatId: int, message: string, maxLen: int)
    requires Relay(b, complete, chatId, message, maxLen).Delivered?
    ensures Submit(complete, message, ActiveModel(b)).Success?
    ensures var reply := Submit(complete, message, ActiveModel(b)).value;
            var out := Relay(b, complete, chatId, message, maxLen).bot.sent[|b.sent|..];
            && Halts(reply, maxLen)
            && out == Deliveries(chatId, SplitMessage(reply, maxLen))
            && Concat(Texts(out)) == Escape(reply)
            && (forall i :: 0 <= i < |out| ==> out[i].chatId == chatId && out[i].markdownV2)
            && (forall i :: 0 <= i < |out| ==> |out[i].text| <= 2 * maxLen)
  {
    var reply := Submit(complete, message, ActiveModel(b)).value;
    var parts := SplitMessage(reply, maxLen);
    var out := Relay(b, complete, chatId, message, maxLen).bot.sent[|b.sent|..];
    assert out == Deliveries(chatId, parts);
    SplitMessageCovers(reply, maxLen);
    DeliveriesSpellEscape(chatId, parts);
    forall i | 0 <= i < |out|
      ensures |out[i].text| <= 2 * maxLen
    {
      assert out[i].text == Escape(parts[i]);
    }
  }

  /** Escaping happens after chunking, so a sent text can exceed the budget: with a budget
      of 1, the reply "_" is sent as the two characters "\_". */
  lemma EscapedPartExceedsBudget(b: Bot, complete: (Backend, string) -> string, chatId: int, message: string)
    requires ValidSelection(b) && Submit(complete, message, ActiveModel(b)).Success?
    requires Submit(complete, message, ActiveModel(b)).value == "_"
    ensures Relay(b, complete, chatId, message, 1).Delivered?
    ensures Relay(b, complete, chatId, message, 1).bot.sent[|b.sent|].text == "\\_"
  {
    ActiveReply(b, complete, message);
    assert SplitMessage("_", 1) == ["_"];
    EscapeExamples();
    assert Escape("_") == "\\_" by {
      assert Escape("_") == EscapeChar('_') + Escape("");
    }
  }

  // ---------------------------------------------------------------------------
  // The relay with the corrected chunker.
  // ---------------------------------------------------------------------------

  /** `equiped_chatbot` using the corrected `split_message`, for a positive budget. */
  function RelayCorrected(b: Bot, complete: (Backend, string) -> string, chatId: int, message: string, maxLen: int): (o: Outcome)
    requires maxLen >= 1
    ensures ValidSelection(b) ==> o.Delivered?
    ensures o.bot.currentModel == Some(ActiveModel(b))
    ensures o.Delivered? ==>
              var r := Submit(complete, message, ActiveModel(b));
              && r.Success? && o.bot.sent == b.sent + Deliveries(chatId, SplitMessageCorrected(r.value, maxLen))
  {
    SupportedNamesLower();
    var model := ActiveModel(b);
    var b1 := b.(currentModel := Some(model));
    match Submit(complete, message, model)
    case Failure(e) => Raised(b1, e)
    case Success(reply) =>
      Delivered(b1.(sent := b1.sent + Deliveries(chatId, SplitMessageCorrected(reply, maxLen))))
  }

  /** Wherever the original relay does not hang, the corrected one behaves identically. */
  lemma RelayCorrectedAgrees(b: Bot, complete: (Backend, string) -> string, chatId: int, message: string, maxLen: int)
    requires maxLen >= 1 && !Relay(b, complete, chatId, message, maxLen).Hangs?
    ensures RelayCorrected(b, complete, chatId, message, maxLen) == Relay(b, complete, chatId, message, maxLen)
  {
    var r := Submit(complete, message, ActiveModel(b));
    if r.Success? {
      CorrectedAgreesWhenHalting(r.value, maxLen);
    }
  }

  /** The corrected relay's sends join to the escaped reply, each within twice the budget. */
  lemma RelayCorrectedSends(b: Bot, complete: (Backend, string) -> string, chatId: int, message: string, maxLen: int)
    requires maxLen >= 1 && ValidSelection(b)
    ensures Submit(complete, message, ActiveModel(b)).Success?
    ensures var reply := Submit(complete, message, ActiveModel(b)).value;
            var out := RelayCorrected(b, complete, chatId, message, maxLen).bot.sent[|b.sent|..];
            && out == Deliveries(chatId, SplitMessageCorrected(reply, maxLen))
            && Concat(Texts(out)) == Escape(reply)
            && (forall i :: 0 <= i < |out| ==> out[i].chatId == chatId && out[i].markdownV2)
            && (forall i :: 0 <= i < |out| ==> |out[i].text| <= 2 * maxLen)
  {
    ActiveReply(b, complete, message);
    var reply := Submit(complete, message, ActiveModel(b)).value;
    var parts := SplitMessageCorrected(reply, maxLen);
    var out := RelayCorrected(b, complete, chatId, message, maxLen).bot.sent[|b.sent|..];
    assert out == Deliveries(chatId, parts);
    CorrectedCovers(reply, maxLen);
    DeliveriesSpellEscape(chatId, parts);
    forall i | 0 <= i < |out|
      ensures |out[i].text| <= 2 * maxLen
    {
      assert out[i].text == Escape(parts[i]);
    }
  }

  // ---------------------------------------------------------------------------
  // A session: updates handled one after another.
  // ---------------------------------------------------------------------------

  /** An incoming update: a `/model` command with its arguments, or a plain text message. */
  datatype Update = ModelCommand(chatId: int, args: seq<string>) | TextMessage(chatId: int, text: string)

  /** Where a session ends: the bot, the messages of the `ValueError`s raised along the
      way (each one ends only its own handler), and whether a relay hung. */
  datatype SessionEnd = SessionEnd(bot: Bot, errors: seq<string>, hung: bool)

  /** The updates handled in order. A raised `ValueError` ends only its own handler and is
      recorded; a relay that hangs blocks every later update, so the session stops there.
      Starting from a valid selection (as `Initial` is), `submit` is only ever called with
      a supported model, so no `ValueError` is raised whatever the updates. */
  function Session(b: Bot, updates: seq<Update>, complete: (Backend, string) -> string, maxLen: int): (e: SessionEnd)
    ensures ValidSelection(b) ==> ValidSelection(e.bot) && e.errors == []
    ensures |e.bot.sent| >= |b.sent| && e.bot.sent[..|b.sent|] == b.sent
    ensures |e.errors| <= |updates|
    ensures |updates| > 0 && updates[0].TextMessage? ==>
              var o := Relay(b, complete, updates[0].chatId, updates[0].text, maxLen);
              o.Raised? ==> |e.errors| >= 1 && e.errors[0] == o.error
    decreases |updates|
  {
    if |updates| == 0 then SessionEnd(b, [], false)
    else
      match updates[0]
      case ModelCommand(c, args) => Session(SetModel(b, c, args), updates[1..], complete, maxLen)
      case TextMessage(c, t) =>
        match Relay(b, complete, c, t, maxLen)
        case Delivered(b') => Session(b', updates[1..], complete, maxLen)
        case Raised(b', err) =>
          var e := Session(b', updates[1..], complete, maxLen);
          SessionEnd(e.bot, [err] + e.errors, e.hung)
        case Hangs(b') => SessionEnd(b', [], true)
  }

  /** A bot holding an unsupported model raises on its text message, and a `/model` command
      afterwards repairs the selection. */
  lemma SessionErrorExample(complete: (Backend, string) -> string)
    ensures var e := Session(Bot(Some("gpt-4"), []), [TextMessage(0, "hi"), ModelCommand(0, ["gemini"])], complete, 10);
            e.errors == [UnsupportedError("gpt-4")] && e.bot.currentModel == Some("gemini") && !e.hung
  {
    var b := Bot(Some("gpt-4"), []);
    var updates := [TextMessage(0, "hi"), ModelCommand(0, ["gemini"])];
    assert Lower("gpt-4") == "gpt-4";
    assert Relay(b, complete, 0, "hi", 10) == Raised(b, UnsupportedError("gpt-4"));
    SupportedNamesLower();
    var b2 := SetModel(b, 0, ["gemini"]);
    assert b2.currentModel == Some("gemini");
    assert Session(b, updates[1..], complete, 10) == SessionEnd(b2, [], false);
  }
}
