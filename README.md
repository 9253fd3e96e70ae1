# Student-bot front end: a Dafny model of its state machines

This project models the logic of a React study-assistant front end. It has three
small sequential state machines and one pure helper:

- **The application state** (`App` in `src/App.tsx`). It holds the history ledger,
  newest entry first, and the active-chat selection. It also holds the selected
  assistant model and the login, theme, voice, support and new-chat flags.
  Module `App`, class `AppState`.
- **The chat panel** (`ChatInterface`). It has an append-only message log, the
  text-area buffer and a voice flag. Submitting appends the user's message and
  starts a one-second timer. When the timer fires, it appends a canned bot reply
  and reports a truncated (title, summary) pair to the ledger.
  Module `ChatInterface`, class `ChatSession`.
- **The customer-support widget** (`CustomerSupport`). It works like the chat
  panel, but its message ids are computed from the log's length.
  Module `CustomerSupport`, class `SupportWidget`.
- **The relative-timestamp rule of the history sidebar** (`formatTimestamp`). It
  turns a timestamp string into the instant to display: the clock minus an
  offset chosen by the first phrase that matches, or an invalid date when the
  count is NaN or the instant falls outside the range a JavaScript `Date` can
  hold (8.64 × 10^15 ms either side of the epoch). Module `History`.

Module `JsText` defines the JavaScript string built-ins this logic relies on,
each after its ECMAScript algorithm:

- `trim`, with the ECMAScript whitespace and line-terminator set;
- `includes`;
- `split(' ')[0]`;
- `parseInt` with no radix (leading whitespace, one sign, a `0x` prefix, NaN as `None`);
- `Number.prototype.toString` for the clock-derived ids.

There are no real timers here. Each component's timer callbacks are an explicit
FIFO queue (`pending`), and a `Deliver` method stands for one callback firing.
All of a component's timers have the same delay, so they fire in the order they
were started. Each queued chat entry keeps the text as it was submitted, because
the callback reads that captured text and not the cleared buffer. The clock is a
parameter `now`. The locale rendering of a date is a parameter `stamp`.

Where the intended design and the code differ, the model follows the code:

- A chat submit is accepted while a reply is still outstanding. The only guard is
  that the input is not blank. The design asks for submission to be blocked.
  `SubmitWhileAwaitingIsAccepted` shows two queued replies.
- Deleting the only entry of the ledger while it is active leaves `activeChat`
  naming the deleted id. The code tests the length of the list before the delete
  (`history.length > 1`). The design asks for the selection to become none.
  See `SoleActiveDeleteDangles` and `DeleteActiveRepeatedly`.
- Clearing the ledger does not clear the selection. Logout and the new-chat
  handler set it to '', and deleting the active entry can.
- The chat log is never reset. The `isNewChat` flag that the new-chat handler
  raises is passed to the chat panel, which never reads it.

## Model

| member | source | states |
|---|---|---|
| `JsText.TrimEmptyIffBlank` | src/components/ChatInterface.tsx:48 | The guard `!s.trim()` holds exactly when every character of `s` is JavaScript whitespace, the empty string included. |
| `JsText.ParseIntDecimalString` | src/components/History.tsx:19 | `parseInt` reads back the number that `toString` wrote, even with non-alphanumeric text after it. |
| `JsText.ParseIntRejectsLetter` | src/components/History.tsx:19 | A token that begins with a letter parses to NaN (`None`). |
| `JsText.FirstTokenOfWord` | src/components/History.tsx:19 | `split(' ')[0]` of `word + " " + rest` is `word` whenever `word` has no space. |
| `JsText.DecimalStringInjective` | src/App.tsx:109 | Two different clock readings give two different `Date.now().toString()` ids. |
| `History.DisplayedInstantMeaning` | src/components/History.tsx:13-41 | Every displayed instant is a valid date lying exactly the chosen offset before the clock. The date is invalid exactly when the offset is NaN or the instant leaves the `Date` range. |
| `History.HoursAgoDisplayed` | src/components/History.tsx:18-20 | "N … hours ago" is displayed N hours before the clock, or as an invalid date when that lies before the earliest valid date. |
| `History.HugeHoursCountIsInvalidDate` | src/components/History.tsx:18-20 | A count above 4.8 billion hours is shown as an invalid date, whatever the clock reads. |
| `History.UndatedIsDisplayedAsNow` | src/components/History.tsx:29-31 | A timestamp without "ago" is displayed as the clock reading itself. |
| `History.HoursAgoOffset` | src/components/History.tsx:18-20 | "N … hours ago" gives N × 3,600,000 ms. The hours phrase is tested first, so it wins even if other phrases are present. |
| `History.DaysAgoOffset` | src/components/History.tsx:21-26 | "N … day ago" and "N … days ago" give N × 86,400,000 ms when no hours phrase is present. |
| `History.WeekAgoIgnoresCount` | src/components/History.tsx:27-28 | "… week ago" gives exactly 7 × 86,400,000 ms, whatever word without 'h' or 'd' comes before it; every number is such a word. |
| `History.SingularHourIsNow` | src/components/History.tsx:18-31 | The singular "N hour ago" matches no phrase and gives offset 0. |
| `History.PluralWeeksIsNow` | src/components/History.tsx:27-31 | The plural "N weeks ago" matches no phrase and gives offset 0. |
| `History.UnparsableCountIsInvalid` | src/components/History.tsx:18-26 | A first token that parses to NaN, in front of an hours or days phrase, gives no offset (an invalid date). |
| `History.LetterCountIsInvalid` | src/components/History.tsx:18-26 | A word that starts with a letter in place of the count ("few hours ago", "a day ago") gives no offset. |
| `History.NoAgoIsNow` | src/components/History.tsx:29-30 | A timestamp without "ago" (an absolute date) gives offset 0. |
| `ChatInterface.Truncate` | src/components/ChatInterface.tsx:71-72 | A string that fits in n characters comes back unchanged. A longer one becomes its first n characters plus "...", of length n + 3. |
| `ChatInterface.TruncateBounds` | src/components/ChatInterface.tsx:71-72 | A truncated string is at most n + 3 long and begins with as much of the original as fits. |
| `ChatInterface.TruncateIdempotent` | src/components/ChatInterface.tsx:71-72 | Truncating twice gives the same result as truncating once. |
| `ChatInterface.ReplySummaryIsCut` | src/components/ChatInterface.tsx:61-73 | The canned reply is longer than 100 characters, so every summary is its first 100 characters plus "...", 103 in all. |
| `ChatInterface.ChatSession.constructor` | src/components/ChatInterface.tsx:19-21 | The panel starts with an empty log, an empty buffer, voice off and no pending replies. |
| `ChatInterface.ChatSession.SetInput` | src/components/ChatInterface.tsx:206 | Typing replaces the buffer and changes nothing else. It is possible only while the panel's voice view is off. |
| `ChatInterface.ChatSession.Submit` | src/components/ChatInterface.tsx:46-77 | It is possible only while the panel's voice view is off. Blank input changes nothing. Otherwise it appends one user message with the raw, untrimmed text, queues that text for a reply and clears the buffer. A settled log becomes one that awaits exactly one reply. |
| `ChatInterface.ChatSession.Deliver` | src/components/ChatInterface.tsx:60-74 | The oldest pending reply appends one bot message with the fixed text. It returns the title (the text submitted then, cut at 50) and the summary (the reply, cut at 100). Earlier messages stay as they were. |
| `ChatInterface.ChatSession.VoiceToggle` | src/components/ChatInterface.tsx:79-81 | It flips the panel's voice flag, so doing it twice restores the flag. Nothing else changes. |
| `ChatInterface.SubmitWhileAwaitingIsAccepted` | src/components/ChatInterface.tsx:48 | A second submit before the first reply is accepted. Two messages are logged and two replies are queued. |
| `ChatInterface.TitleUsesSubmittedText` | src/components/ChatInterface.tsx:71 | The title comes from the text captured at submit time, not from whatever the buffer holds later. |
| `CustomerSupport.SupportWidget.constructor` | src/components/CustomerSupport.tsx:9-19 | The widget starts closed and not minimized, with an empty input and nothing pending. Its log is exactly one bot greeting with id 1. |
| `CustomerSupport.SupportWidget.SetMessage` | src/components/CustomerSupport.tsx:139 | Typing replaces the input and changes nothing else. It is possible only while the widget is open and not minimized. |
| `CustomerSupport.SupportWidget.Open` | src/components/CustomerSupport.tsx:47-50 | The floating button, shown only while the widget is closed, sets `isOpen`. Nothing else changes. |
| `CustomerSupport.SupportWidget.Close` | src/components/CustomerSupport.tsx:97 | The close button, shown only while the widget is open, clears `isOpen`. Nothing else changes. |
| `CustomerSupport.SupportWidget.ToggleMinimize` | src/components/CustomerSupport.tsx:89 | It is possible only while the widget is open. It flips `isMinimized`, so doing it twice restores the flag. |
| `CustomerSupport.SupportWidget.Send` | src/components/CustomerSupport.tsx:21-34 | It is possible only while the widget is open and not minimized. Blank input changes nothing. Otherwise it appends the text verbatim with id = old length + 1, clears the input and queues a reply for that length. Every user message's id stays equal to its position. |
| `CustomerSupport.SupportWidget.DeliverReply` | src/components/CustomerSupport.tsx:36-44 | It appends one bot reply with id = (length at its send) + 2. That id equals the reply's position exactly when nothing was appended to the log since its send: neither a send nor another reply. Every id stays at most its position. |
| `CustomerSupport.BackToBackSendsCollide` | src/components/CustomerSupport.tsx:26-38 | Two sends before the first reply give the ids 1, 2, 3, 3, 4. |
| `App.WithoutMembers` | src/App.tsx:129 | After a delete, an entry is in the ledger exactly when it was there before and its id differs from the deleted id. |
| `App.WithoutAppend` | src/App.tsx:129 | Deleting from a concatenation deletes from each part, so the kept entries keep their relative order. |
| `App.WithoutAbsent` | src/App.tsx:129 | Deleting an id that no entry has leaves the ledger unchanged. |
| `App.WithoutLength` | src/App.tsx:129 | The ledger shrinks by exactly the number of entries that carry the id. |
| `App.FirstOtherIsFirstRemaining` | src/App.tsx:131 | The `find` for the first entry with another id yields the id of the first entry left after the delete, or '' when none is left. |
| `App.DeleteSelection` | src/App.tsx:130-131 | Selection after a delete. A non-active or single-entry delete leaves it unchanged. Deleting the active entry from a longer list selects the first remaining entry, or '' if none remains. |
| `App.DeleteSelectsSurvivor` | src/App.tsx:130-131 | Deleting the active entry of a list with more than one entry selects an entry that is still present, or nothing. |
| `App.SoleActiveDeleteDangles` | src/App.tsx:130 | Deleting the only entry while it is active empties the ledger but leaves the selection on the deleted id. |
| `App.SeedIds` | src/App.tsx:25-82 | The seeded ledger has eight entries, with ids "1" to "8" in order. |
| `App.SeedTimestampsAreNow` | src/App.tsx:25-82 | Every seeded timestamp is an absolute date, which the sidebar shows as now. |
| `App.AppState.constructor` | src/App.tsx:18-82 | Initial state: logged out, light theme, model "Mentify 1", selection "1", every flag off, seeded ledger. |
| `App.AppState.Login` | src/App.tsx:95-97 | It is possible only while logged out. It sets `isLoggedIn`. Nothing else changes. |
| `App.AppState.Logout` | src/App.tsx:84-89 | It empties the ledger, sets the selection to '' and turns voice and login off. The theme, model and other flags are kept. Nothing in the code calls it. |
| `App.AppState.ToggleTheme` | src/App.tsx:91-93 | It is possible only while logged in. It flips the theme flag. Nothing else changes. |
| `App.AppState.VoiceToggle` | src/App.tsx:99-101 | It is possible only while logged in. It flips `isVoiceActive`, so doing it twice restores the flag. Nothing else changes. |
| `App.AppState.SupportToggle` | src/App.tsx:103-105 | It flips `isSupportOpen`. Nothing else changes. Nothing in the code calls it. |
| `App.AppState.SelectModel` | src/App.tsx:20 | The state setter `setSelectedModel` replaces `selectedModel`. Nothing else changes. Nothing in the code calls it. |
| `App.AppState.NewInteraction` | src/App.tsx:107-122 | It prepends exactly one entry: the clock as id, the rendered time, the model selected at call time, and the title and summary verbatim. The old entries follow unchanged and in order. |
| `App.AppState.ClearHistory` | src/App.tsx:124-126 | It empties the ledger and leaves the selection and everything else as they were. Nothing in the code calls it. |
| `App.AppState.DeleteChat` | src/App.tsx:128-133 | It is possible only while logged in. The new ledger is the old one without the id. The new selection follows the re-selection rule on the list before the delete. |
| `App.AppState.NewChat` | src/App.tsx:135-139 | It sets the selection to '' and raises the new-chat flag. The ledger is untouched. Nothing in the code calls it. |
| `App.AppState.NewChatFlagExpires` | src/App.tsx:140 | When the 100 ms timer fires, it lowers the new-chat flag. Nothing else changes. |
| `App.AppState.ReplyArrives` | src/components/ChatInterface.tsx:60-74 | When a chat timer fires, one bot message is appended to the chat log. One ledger entry is prepended, titled from the submitted text cut at 50, with the reply cut at 100 as summary. Every other field of both objects is unchanged. |
| `App.DeleteActiveRepeatedly` | src/App.tsx:128-133 | Deleting the active seeded entry seven times walks the selection from "1" to "8". Deleting the last entry leaves the ledger empty and the selection on "8". |

## Left out

- Rendering is left out: JSX markup, CSS class choice, scrolling to the newest message and the text-area auto-height in `src/components/ChatInterface.tsx`. So is the sidebar's mobile overlay flag and its download button, whose handler does nothing.
- The locale rendering of dates (`toLocaleDateString`, `toLocaleTimeString`) is left out. New ledger timestamps are an opaque parameter `stamp`. `History.DisplayedInstant` returns the instant in milliseconds, and an invalid date is `None` (the browser would show "Invalid Date").
- The clock (`Date.now()`, `new Date()`) is a parameter `now`. Message timestamps are that number.
- `setTimeout` is left out. Each component's timers are a FIFO queue with an explicit delivery step. The model does not fix the order in which the chat panel's, the support widget's and the new-chat timers fire relative to one another.
- App.AppState.ReplyArrives: prepends the new entry to the ledger as it is when the timer fires. The source's callback holds the `handleNewInteraction` of the render that started the timer, and that handler prepends to the ledger captured at that render. So in the source, a delete made during the one-second wait is undone, and of two replies outstanding at once only the later one's entry survives. The model does not capture these stale-closure effects.
- Mounting is left out. The chat panel exists only while the user is logged in and the application's voice flag is off. Logging out or turning voice on unmounts it, which discards its log and buffer, but its pending timers still fire and still record their interactions. Logging out also unmounts the support widget. The model keeps each panel as an independent object that is never reset.
- ChatInterface.Truncate: counts Unicode scalar values, whereas JavaScript's `length` and `substring` count UTF-16 code units. The two differ for characters outside the Basic Multilingual Plane.
- JsText.ParseInt: computes the exact integer. It does not model the rounding to a double above 2^53, or the distinction between -0 and 0. A count that large scales to an instant far outside the `Date` range, so the displayed result is an invalid date either way.
- `src/components/VoiceAgent.tsx` is not part of this model. It draws a random audio level on an interval timer with floating-point bar heights.
- `src/components/LoginPage.tsx` is not part of this model beyond `Login`. Its form always calls the login callback, with no validation.
- `src/components/Navbar.tsx` is not part of this model. It calls only the theme and voice toggles. It receives `setSelectedModel` and `onSupportToggle` but never calls them, so `selectedModel` stays "Mentify 1". It does not accept the logout and new-chat callbacks it is handed, and its `getModelDescription` is never called. The history sidebar never calls `onClearHistory`. So `SelectModel`, `SupportToggle`, `Logout`, `NewChat` and `ClearHistory` have no caller in the code; they are modelled as the handlers are written, without a login guard.
- There are no attachments, cancellation or backend failures in the code, so none are modelled.
