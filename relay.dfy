/**
 The relay pipeline of the SSM Johor enforcement Telegram bot: one inbound
 Telegram update becomes an ordered list of outgoing Telegram messages.

 Sending a Telegram message is recorded as an `Outgoing` event appended to
 the outbox (the send itself swallows every error, so it never interrupts
 the pipeline). The OpenAI completion call is an oracle, `service`, from the
 prompt to either the generated content or a failure; every prompt handed to
 it is recorded as well.
 */
module Relay {
  import opened PyText
  import opened PyJson
  import opened Chunker

  datatype Option<T> = None | Some(value: T)

  const WELCOME_TEXT: string :=
    "Selamat datang ke Pembantu Maya Bahagian Penguatkuasa SSM Johor.\n\n"
    + "Saya boleh bantu beri penerangan umum mengenai kompaun, pemeriksaan, pematuhan, "
    + "dan proses proses pembayaran kompaun.\n\n"
    + "Nota: Saya tidak mempunyai akses kepada sistem dalaman seperti e-Compound."

  const ACK_TEXT: string := "Memproses permintaan anda... Sila tunggu sebentar."

  const AI_ERROR_TEXT: string := "Maaf, ralat perkhidmatan AI. Sila cuba lagi kemudian."

  /** The built-in system instruction (used when no instruction file is present). */
  const SYSTEM_INSTRUCTION: string :=
    "Anda ialah pembantu maya Penguatkuasa SSM Johor. "
    + "Berikan jawapan ringkas, jelas, profesional dan mesra."

  const WELCOME_TRIGGERS: set<string> := {
    "/start", "start", "mula", "hi", "hello",
    "assalamualaikum", "salam", "ssm", "penguatkuasa"
  }

  // ------------------------------------------------------------------
  // Welcome trigger
  // ------------------------------------------------------------------

  function IsWelcomeTrigger(msg: string): bool {
    if msg == "" then false else Lower(Strip(msg)) in WELCOME_TRIGGERS
  }

  /** `msg` is the trigger word `w`, in any letter case, at offset `i`, with only whitespace around it. */
  predicate PaddedMatch(msg: string, w: string, i: nat) {
    i + |w| <= |msg| && IsBlank(msg[..i]) && IsBlank(msg[i + |w|..])
    && Lower(msg[i..i + |w|]) == w
  }

  /** No trigger word starts or ends with whitespace. */
  lemma {:induction false} TriggersAreTrimmed(w: string)
    requires w in WELCOME_TRIGGERS
    ensures |w| >= 1 && !IsSpace(w[0]) && !IsSpace(w[|w| - 1])
  {
  }

  lemma {:induction false} TriggerIsPaddedMatch(msg: string)
    requires IsWelcomeTrigger(msg)
    ensures PaddedMatch(msg, Lower(Strip(msg)), Leading(msg))
  {
    StripSpec(msg);
  }

  lemma {:induction false} PaddedMatchIsTrigger(msg: string, w: string, i: nat)
    requires w in WELCOME_TRIGGERS && PaddedMatch(msg, w, i)
    ensures IsWelcomeTrigger(msg)
  {
    TriggersAreTrimmed(w);
    var m := msg[i..i + |w|];
    assert LowerChar(m[0]) == w[0];
    assert LowerChar(m[|m| - 1]) == w[|w| - 1];
    StripUnique(msg, i, i + |w|);
  }

  /**
   A text is a welcome trigger exactly when it is one of the nine trigger
   words, in any letter case, surrounded by nothing but whitespace; in
   particular an empty or blank text never is.
   */
  lemma {:induction false} WelcomeTriggerIff(msg: string)
    ensures IsWelcomeTrigger(msg) <==> exists w, i :: w in WELCOME_TRIGGERS && PaddedMatch(msg, w, i)
    ensures IsBlank(msg) ==> !IsWelcomeTrigger(msg)
  {
    StripEmptyIffBlank(msg);
    if IsWelcomeTrigger(msg) {
      TriggerIsPaddedMatch(msg);
    }
    if exists w, i :: w in WELCOME_TRIGGERS && PaddedMatch(msg, w, i) {
      var w: string, i: nat :| w in WELCOME_TRIGGERS && PaddedMatch(msg, w, i);
      PaddedMatchIsTrigger(msg, w, i);
    }
  }

  // ------------------------------------------------------------------
  // Completion request
  // ------------------------------------------------------------------

  datatype Role = System | User

  datatype ChatMessage = ChatMessage(role: Role, content: string)

  /** What the completion service answers: the generated content, or any failure. */
  datatype Completion = Replied(content: string) | Failed

  /** The prompt: the system instruction first, then the user's text exactly as received. */
  function BuildOpenAIMessages(userText: string): (r: seq<ChatMessage>)
    ensures |r| == 2
    ensures r[0] == ChatMessage(System, SYSTEM_INSTRUCTION)
    ensures r[1] == ChatMessage(User, userText)
  {
    [ChatMessage(System, SYSTEM_INSTRUCTION), ChatMessage(User, userText)]
  }

  // ------------------------------------------------------------------
  // Update extraction
  // ------------------------------------------------------------------

  /** One `sendMessage` call: destination chat and text. */
  datatype Outgoing = Outgoing(chatId: Json, text: string)

  function ToChat(chatId: Json, texts: seq<string>): seq<Outgoing> {
    seq(|texts|, i requires 0 <= i < |texts| => Outgoing(chatId, texts[i]))
  }

  lemma {:induction false} ToChatAppend(chatId: Json, a: seq<string>, b: seq<string>)
    ensures ToChat(chatId, a + b) == ToChat(chatId, a) + ToChat(chatId, b)
  {
  }

  /**
   How reading the update ends: no message to answer (early return), an
   exception caught by the outer handler before anything is sent, or an
   addressable message.
   */
  datatype Extraction =
    | NoMessage
    | Crashed
    | Addressed(chatId: Json, text: string, messageId: Json)

  /** `data.get("message") or data.get("edited_message")` */
  function Chosen(fields: map<string, Json>): Json {
    Or(Get(fields, "message", JNull), Get(fields, "edited_message", JNull))
  }

  /** `message["chat"]["id"]`, or None where that lookup raises. */
  function ChatIdOf(message: Json): Option<Json> {
    if message.JObject? && "chat" in message.fields
       && message.fields["chat"].JObject? && "id" in message.fields["chat"].fields
    then Some(message.fields["chat"].fields["id"])
    else None
  }

  /** `message.get("text") or message.get("caption", "") or ""` */
  function TextValue(fields: map<string, Json>): Json {
    Or(Or(Get(fields, "text", JNull), Get(fields, "caption", JString(""))), JString(""))
  }

  /**
   Reading the chat id, the text and the message id out of an update. A
   text that is not a string (and is truthy) makes `len` or `strip` raise
   before anything is sent.
   */
  function ExtractMessage(data: Json): (r: Extraction)
    ensures (data.JObject? && !Truthy(Get(data.fields, "message", JNull))
             && !Truthy(Get(data.fields, "edited_message", JNull))) ==> r == NoMessage
    ensures r.Addressed? ==> data.JObject? && ChatIdOf(Chosen(data.fields)) == Some(r.chatId)
    ensures r.Addressed? ==>
      var f := Chosen(data.fields).fields;
      r.text == "" || Get(f, "text", JNull) == JString(r.text) || Get(f, "caption", JNull) == JString(r.text)
    // a payload that is not an object, or a message without `chat.id`, raises
    ensures !data.JObject? ==> r == Crashed
    ensures (data.JObject? && Truthy(Chosen(data.fields)) && ChatIdOf(Chosen(data.fields)).None?) ==> r == Crashed
  {
    if !data.JObject? then Crashed
    else
      var message := Chosen(data.fields);
      if !Truthy(message) then NoMessage
      else match ChatIdOf(message)
        case None => Crashed
        case Some(chatId) =>
          var text := TextValue(message.fields);
          if text.JString? then Addressed(chatId, text.s, Get(message.fields, "message_id", JNull))
          else Crashed
  }

  /**
   Which text an addressable message is answered with: a non-empty string
   `text` wins; otherwise the `caption` string (or "" when it is missing);
   otherwise "". A truthy `text` or `caption` that is not a string raises.
   The answer carries the message's `chat.id` and `message_id`.
   */
  lemma {:induction false} ExtractMessageText(data: Json)
    requires data.JObject? && ChatIdOf(Chosen(data.fields)).Some?
    ensures var f := Chosen(data.fields).fields;
      var c, id := ChatIdOf(Chosen(data.fields)).value, Get(f, "message_id", JNull);
      var text, caption := Get(f, "text", JNull), Get(f, "caption", JString(""));
      && (text.JString? && text.s != "" ==> ExtractMessage(data) == Addressed(c, text.s, id))
      && (Truthy(text) && !text.JString? ==> ExtractMessage(data) == Crashed)
      && (!Truthy(text) && caption.JString? ==> ExtractMessage(data) == Addressed(c, caption.s, id))
      && (!Truthy(text) && Truthy(caption) && !caption.JString? ==> ExtractMessage(data) == Crashed)
      && (!Truthy(text) && !Truthy(caption) ==> ExtractMessage(data) == Addressed(c, "", id))
  {
    assert "chat" in Chosen(data.fields).fields;
  }

  /**
   An `edited_message` is handled exactly as the same `message` would be,
   whatever other fields (such as `update_id`) the update carries.
   */
  lemma {:induction false} EditedMessageAlike(f: map<string, Json>, m: Json)
    requires "message" !in f && "edited_message" !in f
    ensures ExtractMessage(JObject(f["edited_message" := m])) == ExtractMessage(JObject(f["message" := m]))
  {
    assert |"message"| != |"edited_message"|;
    if Truthy(m) {
      assert Chosen(f["edited_message" := m]) == Chosen(f["message" := m]);
    }
  }

  /**
   A truthy `message` wins over any `edited_message`, whatever other fields
   the update carries.
   */
  lemma {:induction false} MessageTakesPrecedence(f: map<string, Json>, m: Json, e: Json)
    requires Truthy(m)
    requires "message" !in f && "edited_message" !in f
    ensures ExtractMessage(JObject(f["message" := m]["edited_message" := e]))
            == ExtractMessage(JObject(f["message" := m]))
  {
    assert |"message"| != |"edited_message"|;
    assert Chosen(f["message" := m]["edited_message" := e]) == m;
  }

  // ------------------------------------------------------------------
  // Pipeline
  // ------------------------------------------------------------------

  /** The welcome path is taken on a trigger text or on message id 1. */
  predicate IsWelcome(m: Extraction)
    requires m.Addressed?
  {
    IsWelcomeTrigger(m.text) || EqualsOne(m.messageId)
  }

  /**
   The splitting loop: paragraphs are packed greedily into a buffer, which
   is sent stripped whenever the next paragraph would overflow it; the last
   buffer is sent unless it is blank.
   */
  method SendReplyInChunks(chatId: Json, reply: string) returns (sent: seq<Outgoing>)
    ensures sent == ToChat(chatId, Chunks(reply))
  {
    var paragraphs := Split(reply);
    var buffer := "";
    ghost var flushed: seq<string> := [];
    sent := [];
    for i := 0 to |paragraphs|
      invariant Pack(paragraphs[..i]) == Packing(flushed, buffer)
      invariant sent == ToChat(chatId, StripAll(flushed))
    {
      var p := paragraphs[i];
      assert paragraphs[..i + 1] == paragraphs[..i] + [p];
      PackNext(paragraphs[..i], p);
      if |buffer| + |p| + 2 > MAX_LEN {
        StripAllAppend(flushed, buffer);
        ToChatAppend(chatId, StripAll(flushed), [Strip(buffer)]);
        sent := sent + [Outgoing(chatId, Strip(buffer))];
        flushed := flushed + [buffer];
        buffer := p + SEP;
      } else {
        buffer := buffer + p + SEP;
      }
    }
    assert paragraphs[..|paragraphs|] == paragraphs;
    ToChatAppend(chatId, StripAll(flushed), Tail(buffer));
    if Strip(buffer) != "" {
      sent := sent + [Outgoing(chatId, Strip(buffer))];
    }
  }

  /**
   Processing one update: the messages sent, in order, and the prompts
   handed to the completion service.
   */
  method ProcessAndReply(data: Json, service: seq<ChatMessage> -> Completion)
    returns (sent: seq<Outgoing>, requests: seq<seq<ChatMessage>>)
    // nothing to answer, or a malformed update: silence
    ensures !ExtractMessage(data).Addressed? ==> sent == [] && requests == []
    // everything goes to the update's own chat, and at most one completion is requested
    ensures ExtractMessage(data).Addressed? ==>
      |sent| >= 1 && forall k :: 0 <= k < |sent| ==> sent[k].chatId == ExtractMessage(data).chatId
    ensures |requests| <= 1
    // welcome: one fixed message, no completion
    ensures var m := ExtractMessage(data);
      m.Addressed? && IsWelcome(m) ==> sent == [Outgoing(m.chatId, WELCOME_TEXT)] && requests == []
    // otherwise the acknowledgment comes first
    ensures var m := ExtractMessage(data);
      m.Addressed? && !IsWelcome(m) ==> sent[0] == Outgoing(m.chatId, ACK_TEXT)
    // blank text: the acknowledgment only, no completion
    ensures var m := ExtractMessage(data);
      m.Addressed? && !IsWelcome(m) && IsBlank(m.text) ==>
        sent == [Outgoing(m.chatId, ACK_TEXT)] && requests == []
    // otherwise exactly one completion, on the unstripped text
    ensures var m := ExtractMessage(data);
      m.Addressed? && !IsWelcome(m) && !IsBlank(m.text) ==> requests == [BuildOpenAIMessages(m.text)]
    // failed completion: acknowledgment and the error notice, nothing else
    ensures var m := ExtractMessage(data);
      m.Addressed? && !IsWelcome(m) && !IsBlank(m.text) && service(BuildOpenAIMessages(m.text)).Failed? ==>
        sent == [Outgoing(m.chatId, ACK_TEXT), Outgoing(m.chatId, AI_ERROR_TEXT)]
    // short reply: sent whole, even when empty
    ensures var m := ExtractMessage(data);
      m.Addressed? && !IsWelcome(m) && !IsBlank(m.text) && service(BuildOpenAIMessages(m.text)).Replied?
      && |Strip(service(BuildOpenAIMessages(m.text)).content)| <= MAX_LEN ==>
        sent == [Outgoing(m.chatId, ACK_TEXT), Outgoing(m.chatId, Strip(service(BuildOpenAIMessages(m.text)).content))]
    // long reply: the chunks, in order
    ensures var m := ExtractMessage(data);
      m.Addressed? && !IsWelcome(m) && !IsBlank(m.text) && service(BuildOpenAIMessages(m.text)).Replied?
      && |Strip(service(BuildOpenAIMessages(m.text)).content)| > MAX_LEN ==>
        sent == [Outgoing(m.chatId, ACK_TEXT)]
                + ToChat(m.chatId, Chunks(Strip(service(BuildOpenAIMessages(m.text)).content)))
  {
    sent, requests := [], [];
    var extracted := ExtractMessage(data);
    if !extracted.Addressed? {
      return;
    }
    var chatId, text := extracted.chatId, extracted.text;

    if IsWelcomeTrigger(text) || EqualsOne(extracted.messageId) {
      sent := sent + [Outgoing(chatId, WELCOME_TEXT)];
      return;
    }

    sent := sent + [Outgoing(chatId, ACK_TEXT)];

    StripEmptyIffBlank(text);
    if Strip(text) == "" {
      return;
    }

    var messages := BuildOpenAIMessages(text);
    requests := requests + [messages];
    var completion := service(messages);
    if completion.Failed? {
      sent := sent + [Outgoing(chatId, AI_ERROR_TEXT)];
      return;
    }
    // call_openai strips the generated content
    var reply := Strip(completion.content);

    if |reply| <= MAX_LEN {
      sent := sent + [Outgoing(chatId, reply)];
    } else {
      var chunks := SendReplyInChunks(chatId, reply);
      sent := sent + chunks;
    }
  }

  // ------------------------------------------------------------------
  // Webhook
  // ------------------------------------------------------------------

  /** The HTTP answer and the update handed to a background task, if any. */
  datatype Dispatch = Dispatch(response: Json, scheduled: Option<Json>)

  const OK_RESPONSE: Json := JObject(map["ok" := JBool(true)])

  /**
   The webhook answers `{"ok": true}` whatever the body; a body that parses
   is handed, unchanged, to a background run of ProcessAndReply, one that
   does not parse (`None`) is dropped.
   */
  function Webhook(parsed: Option<Json>): (r: Dispatch)
    ensures r.response == OK_RESPONSE
    ensures r.scheduled == parsed
  {
    match parsed
    case None => Dispatch(OK_RESPONSE, None)
    case Some(update) => Dispatch(OK_RESPONSE, Some(update))
  }
}
