/** The top-level application state: the history ledger (most recent
    first), the active-chat selection, the selected assistant model and the
    flags the handlers flip. New ledger ids are `Date.now().toString()` and
    new timestamps a locale rendering of the clock: both arrive as
    parameters (`now`, `stamp`). */
module App {
  import opened Wrappers
  import opened JsText
  import History
  import ChatInterface

  datatype HistoryItem = HistoryItem(id: string, timestamp: string, model: string, title: string, summary: string)

  /** The ledger the application starts with. */
  const SeedHistory: seq<HistoryItem> := [
    HistoryItem("1", "September 25, 2025 at 10:30 AM", "Mentify 1", "Welcome conversation",
      "Initial setup and introduction to the platform features and capabilities."),
    HistoryItem("2", "September 24, 2025 at 2:15 PM", "Mentify 2", "Code assistance",
      "Help with React component development and TypeScript implementation."),
    HistoryItem("3", "September 23, 2025 at 9:45 AM", "Mentify 4", "Creative writing",
      "Collaborative story writing session with character development."),
    HistoryItem("4", "September 22, 2025 at 4:20 PM", "Mentify 1", "Data analysis help",
      "Assistance with interpreting statistical data and creating visualizations."),
    HistoryItem("5", "September 21, 2025 at 11:30 AM", "Mentify 3", "Language learning",
      "Practice conversation in Spanish with grammar corrections and tips."),
    HistoryItem("6", "September 20, 2025 at 3:45 PM", "Mentify 2", "Recipe suggestions",
      "Healthy meal planning and cooking instructions for vegetarian dishes."),
    HistoryItem("7", "September 18, 2025 at 8:15 AM", "Mentify 1", "Travel planning",
      "Itinerary creation for a 2-week European vacation with budget considerations."),
    HistoryItem("8", "September 17, 2025 at 6:30 PM", "Mentify 4", "Business strategy",
      "Market analysis and competitive positioning for a new startup idea.")
  ]

  const DefaultModel: string := "Mentify 1"

  /** `history.filter(item => item.id !== id)`. */
  function Without(h: seq<HistoryItem>, id: string): seq<HistoryItem> {
    if h == [] then []
    else if h[0].id != id then [h[0]] + Without(h[1..], id)
    else Without(h[1..], id)
  }

  /** `history.find(item => item.id !== id)?.id || ''`. */
  function FirstOtherId(h: seq<HistoryItem>, id: string): string {
    if h == [] then "" else if h[0].id != id then h[0].id else FirstOtherId(h[1..], id)
  }

  /** The selection after deleting `id` from `h`: the guard reads the
      length of the list before the delete. */
  function ActiveAfterDelete(h: seq<HistoryItem>, active: string, id: string): string {
    if active == id && |h| > 1 then FirstOtherId(h, id) else active
  }

  /** The filter keeps exactly the entries whose id differs. */
  lemma {:induction false} WithoutMembers(h: seq<HistoryItem>, id: string, e: HistoryItem)
    ensures e in Without(h, id) <==> e in h && e.id != id
  {
    if h != [] {
      WithoutMembers(h[1..], id, e);
      assert h == [h[0]] + h[1..];
    }
  }

  /** Filtering a concatenation filters each part: the kept entries stay
      in their relative order. */
  lemma {:induction false} WithoutAppend(a: seq<HistoryItem>, b: seq<HistoryItem>, id: string)
    ensures Without(a + b, id) == Without(a, id) + Without(b, id)
  {
    if a == [] {
      assert a + b == b;
    } else {
      assert (a + b)[0] == a[0] && (a + b)[1..] == a[1..] + b;
      WithoutAppend(a[1..], b, id);
    }
  }

  /** Deleting an id that no entry has leaves the ledger as it was. */
  lemma {:induction false} WithoutAbsent(h: seq<HistoryItem>, id: string)
    requires forall i :: 0 <= i < |h| ==> h[i].id != id
    ensures Without(h, id) == h
  {
    if h != [] {
      WithoutAbsent(h[1..], id);
    }
  }

  /** The number of entries the filter drops is the number carrying `id`. */
  function CountId(h: seq<HistoryItem>, id: string): nat {
    if h == [] then 0 else (if h[0].id == id then 1 else 0) + CountId(h[1..], id)
  }

  lemma {:induction false} WithoutLength(h: seq<HistoryItem>, id: string)
    ensures |Without(h, id)| == |h| - CountId(h, id)
  {
    if h != [] {
      WithoutLength(h[1..], id);
    }
  }

  /** `find` picks the entry that the filter leaves first. */
  lemma {:induction false} FirstOtherIsFirstRemaining(h: seq<HistoryItem>, id: string)
    ensures FirstOtherId(h, id) == if Without(h, id) == [] then "" else Without(h, id)[0].id
  {
    if h != [] && h[0].id == id {
      FirstOtherIsFirstRemaining(h[1..], id);
    }
  }

  /** The re-selection rule of `handleDeleteChat`, stated against the
      ledger that results from the delete. */
  lemma DeleteSelection(h: seq<HistoryItem>, active: string, id: string)
    ensures active != id ==> ActiveAfterDelete(h, active, id) == active
    ensures active == id && |h| <= 1 ==> ActiveAfterDelete(h, active, id) == active
    ensures active == id && |h| > 1 && Without(h, id) != [] ==>
      ActiveAfterDelete(h, active, id) == Without(h, id)[0].id
    ensures active == id && |h| > 1 && Without(h, id) == [] ==> ActiveAfterDelete(h, active, id) == ""
  {
    FirstOtherIsFirstRemaining(h, id);
  }

  /** Deleting the active entry of a ledger with more than one entry always
      selects an entry that is still there, or nothing. */
  lemma DeleteSelectsSurvivor(h: seq<HistoryItem>, id: string)
    requires |h| > 1
    ensures var r := ActiveAfterDelete(h, id, id);
      r == "" || exists e :: e in Without(h, id) && e.id == r
  {
    FirstOtherIsFirstRemaining(h, id);
    if Without(h, id) != [] {
      assert Without(h, id)[0] in Without(h, id);
    }
  }

  /** Deleting the only entry while it is active leaves the selection on
      the id that no longer exists. */
  lemma SoleActiveDeleteDangles(e: HistoryItem)
    ensures Without([e], e.id) == []
    ensures ActiveAfterDelete([e], e.id, e.id) == e.id
  {
    assert Without([e], e.id) == Without([], e.id);
  }

  /** The seeded entries carry the ids "1" to "8", in order. */
  lemma SeedIds()
    ensures |SeedHistory| == 8
    ensures forall i :: 0 <= i < 8 ==> SeedHistory[i].id == [('1' as int + i) as char]
  {
  }

  /** The seeded timestamps are absolute dates, so the sidebar shows each
      as now. */
  lemma SeedTimestampsAreNow()
    ensures forall i :: 0 <= i < |SeedHistory| ==> History.TimestampOffset(SeedHistory[i].timestamp) == Some(0)
  {
    forall i | 0 <= i < |SeedHistory|
      ensures History.TimestampOffset(SeedHistory[i].timestamp) == Some(0)
    {
      AbsoluteDateIsNow(SeedHistory[i].timestamp);
    }
  }

  lemma AbsoluteDateIsNow(t: string)
    requires t in ["September 25, 2025 at 10:30 AM", "September 24, 2025 at 2:15 PM",
                   "September 23, 2025 at 9:45 AM", "September 22, 2025 at 4:20 PM",
                   "September 21, 2025 at 11:30 AM", "September 20, 2025 at 3:45 PM",
                   "September 18, 2025 at 8:15 AM", "September 17, 2025 at 6:30 PM"]
    ensures History.TimestampOffset(t) == Some(0)
  {
    assert 'g' !in t;
    LacksChar(t, "ago", 'g');
    History.NoAgoIsNow(t);
  }

  class AppState {
    var isLoggedIn: bool
    var isDarkMode: bool
    var selectedModel: string
    var activeChat: string
    var isVoiceActive: bool
    var isSupportOpen: bool
    var isNewChat: bool
    var history: seq<HistoryItem>

    constructor()
      ensures !isLoggedIn && !isDarkMode && selectedModel == DefaultModel && activeChat == "1"
      ensures !isVoiceActive && !isSupportOpen && !isNewChat
      ensures history == SeedHistory
    {
      isLoggedIn := false;
      isDarkMode := false;
      selectedModel := DefaultModel;
      activeChat := "1";
      isVoiceActive := false;
      isSupportOpen := false;
      isNewChat := false;
      history := SeedHistory;
    }

    /** `handleLogin`: the login form always succeeds. It is shown only
        while logged out. */
    method Login()
      requires !isLoggedIn
      modifies this
      ensures isLoggedIn
      ensures history == old(history) && activeChat == old(activeChat) && selectedModel == old(selectedModel)
      ensures isVoiceActive == old(isVoiceActive) && isDarkMode == old(isDarkMode)
      ensures isSupportOpen == old(isSupportOpen) && isNewChat == old(isNewChat)
    {
      isLoggedIn := true;
    }

    /** `handleLogout`: empties the ledger, clears the selection and turns
        voice off. */
    method Logout()
      modifies this
      ensures !isLoggedIn && history == [] && activeChat == "" && !isVoiceActive
      ensures selectedModel == old(selectedModel) && isDarkMode == old(isDarkMode)
      ensures isSupportOpen == old(isSupportOpen) && isNewChat == old(isNewChat)
    {
      isLoggedIn := false;
      history := [];
      activeChat := "";
      isVoiceActive := false;
    }

    /** `toggleTheme`, from the navigation bar, which is shown only while
        logged in. */
    method ToggleTheme()
      requires isLoggedIn
      modifies this
      ensures isDarkMode == !old(isDarkMode)
      ensures history == old(history) && activeChat == old(activeChat) && selectedModel == old(selectedModel)
      ensures isLoggedIn == old(isLoggedIn) && isVoiceActive == old(isVoiceActive)
      ensures isSupportOpen == old(isSupportOpen) && isNewChat == old(isNewChat)
    {
      isDarkMode := !isDarkMode;
    }

    /** `handleVoiceToggle`, from the navigation bar or the voice view, both
        shown only while logged in. */
    method VoiceToggle()
      requires isLoggedIn
      modifies this
      ensures isVoiceActive == !old(isVoiceActive)
      ensures history == old(history) && activeChat == old(activeChat) && selectedModel == old(selectedModel)
      ensures isLoggedIn == old(isLoggedIn) && isDarkMode == old(isDarkMode)
      ensures isSupportOpen == old(isSupportOpen) && isNewChat == old(isNewChat)
    {
      isVoiceActive := !isVoiceActive;
    }

    /** `handleSupportToggle`. */
    method SupportToggle()
      modifies this
      ensures isSupportOpen == !old(isSupportOpen)
      ensures history == old(history) && activeChat == old(activeChat) && selectedModel == old(selectedModel)
      ensures isLoggedIn == old(isLoggedIn) && isDarkMode == old(isDarkMode)
      ensures isVoiceActive == old(isVoiceActive) && isNewChat == old(isNewChat)
    {
      isSupportOpen := !isSupportOpen;
    }

    /** `setSelectedModel`, handed to the navigation bar. */
    method SelectModel(model: string)
      modifies this
      ensures selectedModel == model
      ensures history == old(history) && activeChat == old(activeChat)
      ensures isLoggedIn == old(isLoggedIn) && isDarkMode == old(isDarkMode) && isVoiceActive == old(isVoiceActive)
      ensures isSupportOpen == old(isSupportOpen) && isNewChat == old(isNewChat)
    {
      selectedModel := model;
    }

    /** `handleNewInteraction`: prepends one entry carrying the clock as its
        id, the rendered time, the model selected now and the title and
        summary as given. */
    method NewInteraction(title: string, summary: string, now: nat, stamp: string)
      modifies this
      ensures history == [HistoryItem(DecimalString(now), stamp, old(selectedModel), title, summary)] + old(history)
      ensures |history| == |old(history)| + 1 && history[1..] == old(history)
      ensures activeChat == old(activeChat) && selectedModel == old(selectedModel)
      ensures isLoggedIn == old(isLoggedIn) && isDarkMode == old(isDarkMode) && isVoiceActive == old(isVoiceActive)
      ensures isSupportOpen == old(isSupportOpen) && isNewChat == old(isNewChat)
    {
      var item := HistoryItem(DecimalString(now), stamp, selectedModel, title, summary);
      history := [item] + history;
    }

    /** `handleClearHistory`: the selection is left as it was. */
    method ClearHistory()
      modifies this
      ensures history == []
      ensures activeChat == old(activeChat) && selectedModel == old(selectedModel)
      ensures isLoggedIn == old(isLoggedIn) && isDarkMode == old(isDarkMode) && isVoiceActive == old(isVoiceActive)
      ensures isSupportOpen == old(isSupportOpen) && isNewChat == old(isNewChat)
    {
      history := [];
    }

    /** `handleDeleteChat`, from a delete button of the history sidebar
        (shown only while logged in): drops every entry with the id, then
        moves the selection by the rule of `ActiveAfterDelete`. */
    method DeleteChat(id: string)
      requires isLoggedIn
      modifies this
      ensures history == Without(old(history), id)
      ensures activeChat == ActiveAfterDelete(old(history), old(activeChat), id)
      ensures selectedModel == old(selectedModel)
      ensures isLoggedIn == old(isLoggedIn) && isDarkMode == old(isDarkMode) && isVoiceActive == old(isVoiceActive)
      ensures isSupportOpen == old(isSupportOpen) && isNewChat == old(isNewChat)
    {
      var before := history;
      history := Without(before, id);
      if activeChat == id && |before| > 1 {
        activeChat := FirstOtherId(before, id);
      }
    }

    /** `handleNewChat`: clears the selection and raises the new-chat flag
        (which the chat panel never reads); the ledger is untouched. */
    method NewChat()
      modifies this
      ensures activeChat == "" && isNewChat
      ensures history == old(history) && selectedModel == old(selectedModel)
      ensures isLoggedIn == old(isLoggedIn) && isDarkMode == old(isDarkMode) && isVoiceActive == old(isVoiceActive)
      ensures isSupportOpen == old(isSupportOpen)
    {
      activeChat := "";
      isNewChat := true;
    }

    /** The 100 ms timer started by `handleNewChat` fires. */
    method NewChatFlagExpires()
      modifies this
      ensures !isNewChat
      ensures history == old(history) && activeChat == old(activeChat) && selectedModel == old(selectedModel)
      ensures isLoggedIn == old(isLoggedIn) && isDarkMode == old(isDarkMode) && isVoiceActive == old(isVoiceActive)
      ensures isSupportOpen == old(isSupportOpen)
    {
      isNewChat := false;
    }

    /** A chat reply timer fires: the chat panel appends the bot message and
        its interaction is recorded through `handleNewInteraction`. */
    method ReplyArrives(chat: ChatInterface.ChatSession, now: nat, stamp: string)
      requires chat.pending != []
      modifies this, chat
      ensures chat.messages == old(chat.messages) + [ChatInterface.BotMessage(now)]
      ensures chat.pending == old(chat.pending)[1..]
      ensures history == [HistoryItem(DecimalString(now), stamp, old(selectedModel),
                                      ChatInterface.Truncate(old(chat.pending)[0], ChatInterface.TitleLength),
                                      ChatInterface.Truncate(ChatInterface.BotReply, ChatInterface.SummaryLength))]
                         + old(history)
      ensures activeChat == old(activeChat) && selectedModel == old(selectedModel)
      ensures isLoggedIn == old(isLoggedIn) && isDarkMode == old(isDarkMode) && isVoiceActive == old(isVoiceActive)
      ensures isSupportOpen == old(isSupportOpen) && isNewChat == old(isNewChat)
      ensures chat.inputValue == old(chat.inputValue) && chat.isVoiceActive == old(chat.isVoiceActive)
    {
      var interaction := chat.Deliver(now);
      NewInteraction(interaction.title, interaction.summary, now, stamp);
    }
  }

  /** Deleting the active entry over and over walks the selection down the
      seeded ledger; deleting the last one leaves it on the deleted id. */
  method DeleteActiveRepeatedly() returns (remaining: nat, active: string)
    ensures remaining == 0 && active == "8"
  {
    var app := new AppState();
    app.Login();
    SeedIds();
    for k := 0 to 7
      invariant app.history == SeedHistory[k..]
      invariant app.activeChat == SeedHistory[k].id
      invariant app.isLoggedIn
    {
      var h := app.history;
      var id := h[0].id;
      assert h == [h[0]] + h[1..];
      WithoutAppend([h[0]], h[1..], id);
      WithoutAbsent(h[1..], id);
      app.DeleteChat(id);
      FirstOtherIsFirstRemaining(h, id);
      assert SeedHistory[k..][1..] == SeedHistory[k + 1..];
    }
    app.DeleteChat("8");
    remaining, active := |app.history|, app.activeChat;
  }
}
