# Classroom comment relay: a Dafny model

This project models the logic at the centre of a classroom comment system.
Students and the teacher send short comments to a Socket.IO relay hub. The hub
drops comments that contain a banned ("NG") word and broadcasts the rest to
every connection. A full-screen overlay scrolls each comment across one of
several horizontal lanes, or pins it as the single fixed comment. The
teacher's control panel edits the NG-word list, sends comments and shows a
history of everything relayed.

Three pieces are modelled as pure functions over immutable data:

- `Hub` (server/app.js): a state machine whose only state is the banned-word
  list. `Hub.Step(state, inbound)` returns the next state and the events
  broadcast with `io.emit`.
- `Overlay` (renderer/overlay.js): lane set-up, lane choice, lane reservation
  arithmetic, and the fixed-comment slot. The DOM measurements, `Date.now()`
  and `Math.random()` are passed in as an `Env`.
- `Control` (renderer/control.js): the NG-word parser
  `split(',').map(trim).filter(nonEmpty)`, the `sendComment` guard and
  payload, and the newest-first history.

Supporting modules: `JsValue` (JavaScript truthiness of payload fields) and
`JsString` (`includes`, `split` and `trim` as ECMAScript defines them).
`includes` is proved equal to an independent definition of "occurs as a
substring" (`JsString.IncludesIsSubstring`). `split` and `trim` are pinned
down by characterising properties: `split` by its join round trip
(`JsString.JoinSplit`) and its separator-free pieces, `trim` by the blank
frame around its result (`JsString.TrimIsFramed`) and its whitespace-free ends. `Session` connects the three
programs: panel to hub to overlay and history.

Lane times are Dafny `real` milliseconds. `Math.random()` is a parameter
`rand` with `0 <= rand < 1`, and the fallback lane is `Floor(rand * count)`.
`Overlay.FallbackCanPickAnyLane` shows that every lane can be chosen this way.

## Code versus intended behaviour

In several places the code does less than the system is meant to do, or
treats an edge case differently from what one would expect. The model follows
the code:

- The hub does not truncate text to a maximum length. It does not save the
  list to disk, broadcast it, or send it to new connections. It keeps no
  per-comment shape or fixed-comment tables.
- A banned word is any list entry, the empty string included. Every string
  includes `""`, so an empty entry blocks every comment
  (`Hub.EmptyWordBlocksEverything`), although only non-empty entries are
  meant as banned words. The control panel never sends an empty entry
  (`Control.UpdateNgWordsClick`), but the hub accepts any array.
- A lane is free only when its available-at time is strictly before `now`
  (renderer/overlay.js:21). A lane whose reservation ends exactly at `now` is busy.
- When no lane is free, the code picks a lane at random. The alternative its
  own comment mentions (renderer/overlay.js:25), the lane that frees up first,
  is not implemented.
- With zero lanes (a window under 90 pixels high), `lanes[0] = ...` extends the
  empty array to one lane. The model writes through `Overlay.WriteLane`,
  which appends in that case (`Overlay.NoLanesGrowsOne`).

## Model

| member | source | states |
|---|---|---|
| `Hub.Init` | server/app.js:14 | the hub starts with no banned words |
| `JsValue.Truthy` | server/app.js:20 | the falsy payload values are exactly undefined, `false`, `""` and falsy "other" values (null, 0, NaN); a string is truthy iff it is non-empty |
| `JsString.Includes` | server/app.js:23 | `includes` holds when the needle is a prefix of the text, and never when the needle is longer than the text |
| `Hub.Dropped` | server/app.js:23-26 | for a string text, the comment is dropped iff some list entry occurs in it; an empty list drops nothing; a list holding `""` drops everything; a truthy non-string text is dropped iff the list is non-empty, because its missing `includes` throws |
| `Hub.AnyIncludedMeansBanned` | server/app.js:23 | `ngWords.some(w => text.includes(w))` holds iff some list entry is a substring of the text |
| `Hub.Step` | server/app.js:16-43 | each event emits at most one broadcast; only `update_ng_words` can change the state; any broadcast `new_comment` carries exactly the received payload |
| `Hub.FalsyTextIsDropped` | server/app.js:20 | a missing payload or a falsy `text` emits nothing and leaves the list unchanged |
| `Hub.BroadcastIffNoBannedWord` | server/app.js:23-29 | a non-empty string comment is broadcast unchanged iff no banned word is a case-sensitive substring of it; otherwise nothing is emitted; the list is unchanged |
| `Hub.EmptyListRelaysEverything` | server/app.js:14-29 | with the initial empty list, every comment with a truthy text is broadcast |
| `Hub.EmptyWordBlocksEverything` | server/app.js:23-35 | once `""` is in the list, no comment is broadcast at all |
| `Hub.UpdateReplacesOnlyArrays` | server/app.js:33-38 | `update_ng_words` replaces the whole list iff given an array, else changes nothing; it emits nothing |
| `Hub.ClearIsRelayedOnce` | server/app.js:41-43 | `clear_fixed_comment` yields exactly one relayed clear and leaves the list alone |
| `Hub.LastArrayUpdateWins` | server/app.js:33-38 | after any event sequence the list is the one from the last array update, or the initial list if there was none |
| `Hub.RunRelaysOnlyReceived` | server/app.js:18-43 | over any event sequence there are no more broadcasts than events, and every broadcast comment was received as a `send_comment` |
| `JsString.IncludesIsSubstring` | server/app.js:23 | `includes` holds exactly when the needle occurs at some position of the string |
| `JsString.Split` | renderer/control.js:101 | `split(',')` yields at least one piece and no piece contains the separator |
| `JsString.JoinSplit` | renderer/control.js:101 | joining the pieces of `split` with the separator gives back the input |
| `JsString.SplitAround` | renderer/control.js:101 | the pieces of `a + sep + b` are the pieces of `a` followed by those of `b` |
| `JsString.TrimStart` | renderer/control.js:101 | the result is a suffix; everything dropped is whitespace; it does not start with whitespace |
| `JsString.TrimEnd` | renderer/control.js:101 | the result is a prefix; everything dropped is whitespace; it does not end with whitespace |
| `JsString.Trim` | renderer/control.js:101 | the result has no whitespace at either end |
| `JsString.TrimIsFramed` | renderer/control.js:101 | the trimmed result is a slice of the input with only whitespace around it, so trimming removes whitespace and nothing else |
| `JsString.TrimEmptyIffBlank` | renderer/control.js:101 | trimming gives `""` iff the input is all whitespace |
| `JsString.TrimIdempotent` | renderer/control.js:101 | trimming twice equals trimming once |
| `Control.TrimmedNonEmpty` | renderer/control.js:101 | `.map(trim).filter(w => w)` yields no more words than pieces, each non-empty and with no whitespace at either end |
| `Control.ParseNgWords` | renderer/control.js:101 | every parsed word is non-empty and has no whitespace at either end |
| `Control.ParsedWordsAreClean` | renderer/control.js:101 | in addition, no parsed word contains a comma |
| `Control.ParseAroundComma` | renderer/control.js:101 | the words of `a,b` are the words of `a` followed by the words of `b`, in input order |
| `Control.ParseSegment` | renderer/control.js:101 | a comma-free segment gives its trimmed self, or nothing if it is blank |
| `Control.ParseBlankInput` | renderer/control.js:101 | empty input, or input of only commas and whitespace, gives no words |
| `Control.ParseJoinedWords` | renderer/control.js:101 | joining valid words with commas and parsing again gives the same words |
| `Control.UpdateNgWordsClick` | renderer/control.js:100-102 | the update button emits an array, and it never contains `""`; that the array is exactly `ParseNgWords(ngInput)` is stated by `Session.PanelUpdateInstallsParsedList` |
| `Control.SendTeacherComment` | renderer/control.js:73-84 | emits nothing iff the box is empty; otherwise emits the untrimmed text with the selected colour, fixed flag and slider value, and empties the box |
| `Control.SelectColor` | renderer/control.js:50-54 | a colour-block click sets the colour the next comment is sent with and changes nothing else on the panel |
| `Control.LoadedPanel` | renderer/control.js:46 | before any click the panel has an empty text box and the default colour `#ffffff` |
| `Control.SentColorIsLastClicked` | renderer/control.js:46-80 | after a series of colour clicks a comment carries the last colour clicked, or the panel's earlier colour if there was no click; the clicks touch nothing else |
| `Control.DefaultColorIsWhite` | renderer/control.js:46-80 | a comment sent before any colour click is white (`#ffffff`) |
| `Control.WhitespaceIsSent` | renderer/control.js:74-75 | whitespace-only text passes the guard and is sent as typed |
| `Control.ClearFixedClick` | renderer/control.js:91-93 | the clear button emits `clear_fixed_comment` |
| `Control.HistoryEntry` | renderer/control.js:120-123 | the entry is tagged fixed iff `isFixed` is truthy; the swatch is `color` when truthy, otherwise black |
| `Control.OnNewComment` | renderer/control.js:113-125 | the new entry goes on top of the history and the older lines follow unchanged |
| `Control.HistoryIsNewestFirst` | renderer/control.js:113-125 | after receiving comments in order, line `k` shows the `k`-th most recent one, followed by the older history |
| `Overlay.LaneCount` | renderer/overlay.js:9-11 | the lane count is the largest number of 72-pixel lanes that fit in 80% of the window height |
| `Overlay.InitLanes` | renderer/overlay.js:9-16 | `initLanes` (also run on resize) creates that many lanes, all free from time 0 |
| `Overlay.NineHundredPixelsGiveTenLanes` | renderer/overlay.js:5-12 | a 900-pixel window has 10 lanes |
| `Overlay.FirstFreeFrom` | renderer/overlay.js:20-24 | the loop stops at the first lane whose time is strictly before `now`, and every lane it skipped is busy |
| `Overlay.RandomLane` | renderer/overlay.js:26 | `floor(random * n)` is a valid index when `n > 0`, and 0 when there are no lanes |
| `Overlay.GetAvailableLane` | renderer/overlay.js:18-27 | if any lane is free, the result is the lowest-index free lane; otherwise it is some index in range |
| `Overlay.FallbackCanPickAnyLane` | renderer/overlay.js:25-26 | when no lane is free, every lane is a possible result |
| `Overlay.ReservationEndingNowIsBusy` | renderer/overlay.js:19-24 | a lane whose time equals `now` is not free, so while any lane is free it is never the one picked |
| `Overlay.AppearTimeBounds` | renderer/overlay.js:82-83 | the entry time `width / speed` equals `width * 5000 / (windowWidth + width)`, is at least 0, and is below 5000 when the window has width |
| `Overlay.NextAvailable` | renderer/overlay.js:82-84 | the new reservation is `now + width * 5000 / (windowWidth + width) + 200`; it lies in `[now + 200, now + 5200)` for a window with width, and is exactly `now + 200` for zero width |
| `Overlay.ReservationCoversEntry` | renderer/overlay.js:69-93 | the lane frees up 200 ms after the comment's right edge reaches the window's right edge; before that moment the comment is still partly off-screen |
| `Overlay.WiderCommentsReserveLonger` | renderer/overlay.js:82-84 | a wider comment holds its lane at least as long |
| `Overlay.WriteLane` | renderer/overlay.js:84 | the assignment sets only the chosen lane; every other lane is unchanged |
| `Overlay.Start` | renderer/overlay.js:7-16 | the overlay starts with no fixed comment and the initial lanes: `LaneCount(innerHeight)` of them, every one free from time 0 |
| `Overlay.OnNewComment` | renderer/overlay.js:29-84 | a fixed comment leaves the lanes untouched; a scrolling one leaves the fixed slot untouched |
| `Overlay.OnClearFixed` | renderer/overlay.js:100-103 | clearing empties the fixed slot and keeps the lanes |
| `Overlay.OnResize` | renderer/overlay.js:15 | a resize resets every lane to 0 for the new height and keeps the fixed slot |
| `Overlay.FixedCommentReplacesSlot` | renderer/overlay.js:47-64 | a fixed comment replaces any previous one and returns before any lane changes |
| `Overlay.ClearingEmptySlotIsNoOp` | renderer/overlay.js:100-103 | clearing an empty slot changes nothing |
| `Overlay.ScrollingCommentReservesOneLane` | renderer/overlay.js:43-84 | a scrolling comment changes only the chosen lane and keeps the lane count; the chosen lane's new time is `NextAvailable(now, width, windowWidth)`, which lies in `[now + 200, now + 5200)`; a lane picked as free had a reservation ending before `now`, and its new one ends after `now` |
| `Overlay.NoLanesGrowsOne` | renderer/overlay.js:84 | with no lanes, a scrolling comment creates lane 0 |
| `Overlay.LanesFitTheBand` | renderer/overlay.js:66-68 | every initialised lane lies between the 10% top margin and the 10% bottom margin |
| `Overlay.LastFixedCommentWins` | renderer/overlay.js:47-103 | after any event sequence, the slot holds whatever the last fixed comment or clear left, or is unchanged if there was neither |
| `Session.DeliverToOverlay` | renderer/overlay.js:29-103 | a relayed clear empties the slot; a relayed fixed comment fills it; neither touches the lanes |
| `Session.TeacherCommentRelayedVerbatim` | renderer/control.js:73-82 | a teacher's non-empty comment is relayed with its exact typed text iff no banned word occurs in it; otherwise nobody receives it |
| `Session.PanelUpdateInstallsParsedList` | renderer/control.js:100-102 | the update button installs exactly the parsed list on the hub, with no empty word; after that a comment is relayed iff no parsed word occurs in it |
| `Session.ClearButtonEmptiesFixedSlot` | renderer/control.js:91-93 | the clear button's relay empties an overlay's fixed slot and leaves its lanes alone |
| `Session.RelayedCommentTopsHistory` | renderer/control.js:113-125 | a relayed comment comes from a `send_comment`, and its entry goes to the top of the history |
| `Session.DamnIsDropped` | server/app.js:23-26 | with the list `["damn"]`, "I had a damn good day" is not relayed |
| `Session.FineDayIsRelayed` | server/app.js:23-29 | with the list `["damn"]`, "I had a fine day" is relayed unchanged |

## Left out

- Socket.IO transport, Express static serving and `server.listen` (server/app.js:7-12, 46-48). `io.emit` is modelled as the outbound event sequence of `Hub.Step`. It reaches every connection, the sender included.
- main.js (window creation and screen listeners) and public/script.js (the student page's trim-then-send glue) are not part of this model.
- The local IP lookup and QR code (renderer/control.js:6-32) are operating-system and library calls.
- DOM work is not modelled: element creation, styling, `offsetWidth`, animation start and removal on finish (renderer/overlay.js:30-41, 53-61, 86-97). Width, window size and `now` are inputs. The animation's motion appears only as `Overlay.LeftEdge`.
- The history time stamp (`toLocaleTimeString`) depends on the clock. The `innerHTML` markup is not modelled either.
- The colour-block click handler (renderer/control.js:49-55) also moves the `selected` CSS class between blocks; only its update of the panel's colour is modelled (`Control.SelectColor`, the `selectedColor` field of `Control.Panel`). The fixed-position checkbox toggle (renderer/control.js:58-64) only shows or hides the slider. The checkbox state and slider value are inputs of `Control.Panel`.
- The `update_fixed_position` event (renderer/control.js:67-71) has no handler on the hub, so the hub ignores it.
- IEEE-754 rounding: lane arithmetic is exact real arithmetic. `Overlay.NextAvailable` requires `windowWidth + width > 0`. For a scrolling comment in a zero-size window with an empty comment the code computes NaN, and that case is not modelled (`Overlay.ValidEnv` excludes it). Fixed comments never reach the division and carry no such requirement.
- Payload values are only undefined, booleans, strings or "other". A truthy text that is not a string has no `includes` method. With a non-empty list, the code's `includes` call throws a TypeError inside the socket listener; the exception itself is not modelled, only its effect on the hub: the list is unchanged and nothing is broadcast (`Hub.Dropped`). An array used as text (which has its own `includes`) is not distinguished. List entries are modelled as strings only.
- JavaScript strings are UTF-16 code units; the model's strings are Unicode scalar values, so lone surrogates are not represented.
