/** The floating customer-support widget: a log that starts with a greeting,
    an input line, and the open and minimized flags. Sending appends the
    user's text and starts a 1000 ms timer that appends a canned reply.
    Ids are computed from the log's length: the user's message gets the
    length before the send plus one, the reply the same length plus two.
    That numbers the log by position as long as each reply arrives before
    the next send, and gives two messages the same id otherwise. The timers
    are the FIFO queue `pending`; clock readings are passed in as `now`. */
module CustomerSupport {
  import opened JsText

  const Greeting: string := "Hi! I'm here to help you with any questions about Kuberya Bot. How can I assist you today?"
  const SupportReply: string := "Thank you for your message! Our support team will get back to you shortly. In the meantime, you can check our FAQ section for common questions."

  datatype SupportMessage = SupportMessage(id: nat, text: string, isBot: bool, timestamp: nat)

  /** Every message's id is its 1-based position in the log. */
  ghost predicate PositionalIds(log: seq<SupportMessage>) {
    forall i :: 0 <= i < |log| ==> log[i].id == i + 1
  }

  class SupportWidget {
    var isOpen: bool
    var isMinimized: bool
    var message: string
    var messages: seq<SupportMessage>
    /** For each reply timer not yet fired, oldest first, the length the
        log had when its send happened (the callback's captured list). */
    var pending: seq<nat>

    /** What holds in every reachable state, whatever the interleaving of
        sends and replies: a user message's id is its position, no id
        exceeds its position, and every waiting reply belongs to a send
        already in the log. */
    ghost predicate Valid()
      reads this
    {
      && (forall i :: 0 <= i < |messages| && !messages[i].isBot ==> messages[i].id == i + 1)
      && (forall i :: 0 <= i < |messages| ==> 1 <= messages[i].id <= i + 1)
      && (forall k :: 0 <= k < |pending| ==> pending[k] < |messages|)
    }

    /** No reply is waiting and the log is numbered by position. */
    ghost predicate Settled()
      reads this
    {
      pending == [] && PositionalIds(messages)
    }

    /** One reply is waiting, for the send that made the last message. */
    ghost predicate AwaitingReply()
      reads this
    {
      |messages| > 0 && pending == [|messages| - 1] && PositionalIds(messages)
    }

    constructor(now: nat)
      ensures messages == [SupportMessage(1, Greeting, true, now)]
      ensures !isOpen && !isMinimized && message == "" && pending == []
      ensures Valid() && Settled()
    {
      isOpen := false;
      isMinimized := false;
      message := "";
      messages := [SupportMessage(1, Greeting, true, now)];
      pending := [];
    }

    /** Typing into the input line, shown only while the widget is open
        and not minimized. */
    method SetMessage(value: string)
      requires Valid() && isOpen && !isMinimized
      modifies this
      ensures Valid()
      ensures message == value
      ensures messages == old(messages) && pending == old(pending)
      ensures isOpen == old(isOpen) && isMinimized == old(isMinimized)
    {
      message := value;
    }

    /** The floating button, shown only while the widget is closed. */
    method Open()
      requires Valid() && !isOpen
      modifies this
      ensures Valid()
      ensures isOpen
      ensures isMinimized == old(isMinimized) && message == old(message)
      ensures messages == old(messages) && pending == old(pending)
    {
      isOpen := true;
    }

    /** The close button in the header, shown only while the widget is open. */
    method Close()
      requires Valid() && isOpen
      modifies this
      ensures Valid()
      ensures !isOpen
      ensures isMinimized == old(isMinimized) && message == old(message)
      ensures messages == old(messages) && pending == old(pending)
    {
      isOpen := false;
    }

    /** The minimize button in the header, shown only while the widget is
        open. */
    method ToggleMinimize()
      requires Valid() && isOpen
      modifies this
      ensures Valid()
      ensures isMinimized == !old(isMinimized)
      ensures isOpen == old(isOpen) && message == old(message)
      ensures messages == old(messages) && pending == old(pending)
    {
      isMinimized := !isMinimized;
    }

    /** `handleSendMessage`: whitespace-only input is ignored; otherwise the
        text is appended verbatim with id length + 1, the input is cleared
        and a reply timer is started. The form is shown only while the
        widget is open and not minimized. */
    method Send(now: nat) returns (accepted: bool)
      requires Valid() && isOpen && !isMinimized
      modifies this
      ensures Valid()
      ensures accepted <==> !IsBlank(old(message))
      ensures accepted ==>
        messages == old(messages) + [SupportMessage(|old(messages)| + 1, old(message), false, now)] &&
        pending == old(pending) + [|old(messages)|] &&
        message == ""
      ensures !accepted ==>
        messages == old(messages) && pending == old(pending) && message == old(message)
      ensures isOpen == old(isOpen) && isMinimized == old(isMinimized)
      ensures old(Settled()) ==> if accepted then AwaitingReply() else Settled()
    {
      TrimEmptyIffBlank(message);
      if Trim(message) == [] {
        return false;
      }
      messages := messages + [SupportMessage(|messages| + 1, message, false, now)];
      pending := pending + [|messages| - 1];
      message := "";
      accepted := true;
    }

    /** The oldest reply timer fires: the canned reply is appended with id
        (length at its send) + 2. */
    method DeliverReply(now: nat)
      requires Valid() && pending != []
      modifies this
      ensures Valid()
      ensures messages == old(messages) + [SupportMessage(old(pending)[0] + 2, SupportReply, true, now)]
      ensures pending == old(pending)[1..]
      ensures messages[|messages| - 1].id == |messages| <==> |old(messages)| == old(pending)[0] + 1
      ensures message == old(message) && isOpen == old(isOpen) && isMinimized == old(isMinimized)
      ensures old(AwaitingReply()) ==> Settled()
    {
      messages := messages + [SupportMessage(pending[0] + 2, SupportReply, true, now)];
      pending := pending[1..];
    }
  }

  /** Two sends before the first reply: the second send and the first
      reply both get id 3. */
  method BackToBackSendsCollide() returns (ids: seq<nat>)
    ensures ids == [1, 2, 3, 3, 4]
  {
    var widget := new SupportWidget(0);
    widget.Open();
    widget.SetMessage("a");
    assert !IsJsWhitespace(widget.message[0]);
    var accepted := widget.Send(1);
    widget.SetMessage("b");
    assert !IsJsWhitespace(widget.message[0]);
    accepted := widget.Send(2);
    widget.DeliverReply(3);
    widget.DeliverReply(4);
    ids := [widget.messages[0].id, widget.messages[1].id, widget.messages[2].id,
            widget.messages[3].id, widget.messages[4].id];
  }
}
