/** The chat panel: an append-only message log, the text-area buffer and
    the panel's own voice flag. Submitting appends the user's message at
    once and starts a 1000 ms timer whose callback appends the canned bot
    reply and reports a (title, summary) pair to the history ledger. The
    timers are an explicit queue `pending`: every timer has the same delay,
    so they fire in the order they were started, and `Deliver` is one of
    them firing. Clock readings are passed in as `now`. */
module ChatInterface {
  import opened JsText

  /** The reply the simulated bot always gives. */
  const BotReply: string := "I understand your question. Let me help you with that. As Kuberya Bot, I'm designed to assist students with their learning needs. Could you provide more specific details about what you'd like to learn or discuss?"

  const TitleLength: nat := 50
  const SummaryLength: nat := 100

  datatype Message = Message(id: string, text: string, isUser: bool, timestamp: nat)

  /** What one fired reply reports to the history ledger. */
  datatype Interaction = Interaction(title: string, summary: string)

  /** `s.length > n ? s.substring(0, n) + '...' : s`, counted in
      characters. */
  function Truncate(s: string, n: nat): (r: string)
    ensures |s| <= n ==> r == s
    ensures |s| > n ==> |r| == n + 3 && r[..n] == s[..n] && r[n..] == "..."
  {
    if |s| > n then s[..n] + "..." else s
  }

  /** A truncated string is never longer than the limit plus the ellipsis,
      and it always begins with as much of the original as fits. */
  lemma TruncateBounds(s: string, n: nat)
    ensures |Truncate(s, n)| <= n + 3
    ensures var k := if |s| < n then |s| else n; Truncate(s, n)[..k] == s[..k]
  {
  }

  /** Truncating a title or summary again changes nothing. */
  lemma TruncateIdempotent(s: string, n: nat)
    ensures Truncate(Truncate(s, n), n) == Truncate(s, n)
  {
    if |s| > n {
      var r := Truncate(s, n);
      assert r[..n] + r[n..] == r;
    }
  }

  /** The summary every interaction carries: the reply is longer than 100
      characters, so it is always cut at 100 with an ellipsis. */
  lemma ReplySummaryIsCut()
    ensures |BotReply| > SummaryLength
    ensures Truncate(BotReply, SummaryLength) == BotReply[..100] + "..."
    ensures |Truncate(BotReply, SummaryLength)| == 103
  {
  }

  /** The message appended by an accepted submit. */
  function UserMessage(text: string, now: nat): Message {
    Message(DecimalString(now), text, true, now)
  }

  /** The message appended when a reply timer fires. */
  function BotMessage(now: nat): Message {
    Message(DecimalString(now + 1), BotReply, false, now)
  }

  /** User and bot messages alternate, starting with the user's. */
  ghost predicate Alternates(log: seq<Message>) {
    forall i :: 0 <= i < |log| ==> log[i].isUser == (i % 2 == 0)
  }

  class ChatSession {
    var messages: seq<Message>
    var inputValue: string
    var isVoiceActive: bool
    /** The submitted texts whose reply timers have not fired yet, oldest
        first. Each keeps the text as it was at submit time, because the
        callback reads the captured input and not the cleared buffer. */
    var pending: seq<string>

    /** No reply is outstanding and the log is whole exchanges. */
    ghost predicate Settled()
      reads this
    {
      pending == [] && Alternates(messages) && |messages| % 2 == 0
    }

    /** Exactly one reply is outstanding, for the last message. */
    ghost predicate AwaitingReply()
      reads this
    {
      |pending| == 1 && Alternates(messages) && |messages| % 2 == 1
    }

    constructor()
      ensures messages == [] && inputValue == "" && !isVoiceActive && pending == []
      ensures Settled()
    {
      messages := [];
      inputValue := "";
      isVoiceActive := false;
      pending := [];
    }

    /** Typing into the text area, or clicking one of the example prompts.
        Both are shown only while the panel's voice view is off. */
    method SetInput(value: string)
      requires !isVoiceActive
      modifies this
      ensures inputValue == value
      ensures messages == old(messages) && pending == old(pending) && isVoiceActive == old(isVoiceActive)
    {
      inputValue := value;
    }

    /** `handleSubmit`: whitespace-only input is ignored; otherwise the raw,
        untrimmed input is appended as a user message, a reply timer is
        started for it and the buffer is cleared. There is no guard against
        a reply still being outstanding. The form is shown only while the
        panel's voice view is off. */
    method Submit(now: nat) returns (accepted: bool)
      requires !isVoiceActive
      modifies this
      ensures accepted <==> !IsBlank(old(inputValue))
      ensures accepted ==>
        messages == old(messages) + [UserMessage(old(inputValue), now)] &&
        pending == old(pending) + [old(inputValue)] &&
        inputValue == ""
      ensures !accepted ==>
        messages == old(messages) && pending == old(pending) && inputValue == old(inputValue)
      ensures isVoiceActive == old(isVoiceActive)
      ensures old(Settled()) ==> if accepted then AwaitingReply() else Settled()
    {
      TrimEmptyIffBlank(inputValue);
      if Trim(inputValue) == [] {
        return false;
      }
      messages := messages + [UserMessage(inputValue, now)];
      pending := pending + [inputValue];
      inputValue := "";
      accepted := true;
    }

    /** The oldest reply timer fires: the bot message is appended and the
        interaction (title from the text submitted then, summary from the
        reply) is returned for the ledger. */
    method Deliver(now: nat) returns (interaction: Interaction)
      requires pending != []
      modifies this
      ensures messages == old(messages) + [BotMessage(now)]
      ensures pending == old(pending)[1..]
      ensures interaction == Interaction(Truncate(old(pending)[0], TitleLength), Truncate(BotReply, SummaryLength))
      ensures inputValue == old(inputValue) && isVoiceActive == old(isVoiceActive)
      ensures old(AwaitingReply()) ==> Settled()
    {
      var text := pending[0];
      messages := messages + [BotMessage(now)];
      pending := pending[1..];
      interaction := Interaction(Truncate(text, TitleLength), Truncate(BotReply, SummaryLength));
    }

    /** The microphone button: switches the panel to the voice view and back. */
    method VoiceToggle()
      modifies this
      ensures isVoiceActive == !old(isVoiceActive)
      ensures messages == old(messages) && pending == old(pending) && inputValue == old(inputValue)
    {
      isVoiceActive := !isVoiceActive;
    }
  }

  /** A second submit while the first reply is still outstanding is
      accepted: two user messages are logged and two replies are queued. */
  method SubmitWhileAwaitingIsAccepted() returns (accepted: bool, logged: nat, queued: nat)
    ensures accepted && logged == 2 && queued == 2
  {
    var chat := new ChatSession();
    chat.SetInput("first");
    assert !IsJsWhitespace(chat.inputValue[0]);
    accepted := chat.Submit(1000);
    chat.SetInput("second");
    assert !IsJsWhitespace(chat.inputValue[0]);
    accepted := chat.Submit(1500);
    logged, queued := |chat.messages|, |chat.pending|;
  }

  /** Each reply is titled from the text submitted for it, even though the
      buffer has been cleared and refilled in the meantime. */
  method TitleUsesSubmittedText() returns (title: string)
    ensures title == "first"
  {
    var chat := new ChatSession();
    chat.SetInput("first");
    assert !IsJsWhitespace(chat.inputValue[0]);
    var accepted := chat.Submit(1000);
    chat.SetInput("second");
    var interaction := chat.Deliver(2000);
    title := interaction.title;
  }
}
