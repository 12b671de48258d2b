# Socket chat: session, message and reaction state, modelled in Dafny

This project models the state-transition core of a small real-time group chat. A Node.js
server holds a registry of connected users and an append-only message log whose messages carry
emoji reactions. React client components keep their own view of that state through `setState`
reducers. The sockets, HTTP and rendering are abstracted away. Every server handler becomes a pure
function `(state, connection, payload, clock, fresh id) -> (state', emissions)`. Each emission is
tagged with its recipients: all connections, all but the sender, or the sender only. Every client
listener becomes a pure `prev -> next` update.

Modules, one per source component:

- `Reactions` (`reactions.dfy`): the reaction toggle. The server's `add_reaction` handler and the
  client's `message_reaction` reducer share the same algorithm, and it is defined once here.
- `Protocol` (`protocol.dfy`): inbound and outbound socket events as closed variants, plus recipient tags.
- `Server` and `ServerRuns` (`server.dfy`, `server_runs.dfy`): the handlers of `server/index.js`, and properties over traces of events.
- `ChatRoom`, `PresenceLists`, `JsText` (`chatroom.dfy`, `presence.dfy`, `jstext.dfy`): the chat room's listeners and its send guard.
- `OnlineUsers`, `MessageReactions`, `MessageList`: the three view components' state logic.
- `Sync` (`sync.dfy`): how the server's emissions land in a client. It shows that a mirroring client stays mirrored, and that clicks and sends have the effects the UI expects.

JavaScript truthiness is modelled explicitly where the source relies on it:

- `users[c]?.username || 'Anonymous'` also falls back to Anonymous for an empty name.
- `messageData.id || Date.now().toString()` falls back for a missing or empty id.
- `message.reactions || {}` keeps an empty object, since `{}` is truthy.

Where the code behaves differently from what a reader of the UI would expect, the model follows the code:

- The server does not reject a blank `chat message`. Only the client's `sendMessage` trims.
  `Server.OnChatMessage` stores any text, and `Sync.SendStoresWithClientId` shows that messages sent through the client are never blank.
- A reaction toggle is expected to be its own inverse. The code restores the prior state exactly only in
  these cases:
  - the first toggle added the reaction (`Reactions.ToggleTwiceAfterAdd`);
  - the user's entry was the last in its list and carried the same name (`Reactions.ToggleTwiceAfterRemove`, an if-and-only-if).
  
  Otherwise the re-added entry moves to the end of its list (`Reactions.ToggleTwiceReorders`). What two toggles always restore, on a well-formed map, is:
  - the set of active (emoji, user) pairs (`Reactions.ToggleTwicePairs`);
  - every count (`MessageReactions.ToggleTwiceCounts`).
- Client-supplied message ids are trusted without a collision check. The server toggles only the
  first message with an id, but the client's `update_reactions` reducer rewrites every message with
  that id. Mirroring is therefore proved for logs with distinct ids (`Sync.StepKeepsMirror`).
  `Sync.DuplicateIdsDiverge` shows two views that part once ids repeat.
- The client sets its own id from any `user_joined` whose name equals its own. Another connection
  registering the same name takes that id over (`Sync.SameNameTakesId`).

## Model

| member | source | states |
|---|---|---|
| `Server.SenderName` | server/index.js:52 | the registered name when it is non-empty, `'Anonymous'` for an unregistered connection or an empty name |
| `Server.FindMessage` | server/index.js:66 | `findIndex`: None exactly when no message has the id; otherwise the first index whose id matches |
| `Server.OnConnect` | server/index.js:25-26 | state unchanged; one `init_messages` with the whole log, sent to the new connection only |
| `Server.OnRegister` | server/index.js:29-44 | the entry for `c` becomes `{username, id: c}` whether or not one existed; every other entry and the log unchanged; a `user_joined {username, id: c}` to all, on every call |
| `Server.OnChatMessage` | server/index.js:47-62 | exactly one message appended after an unchanged prefix; its id is the payload id when truthy, else the fresh id; sender is the registered name or Anonymous; `senderId == c`; empty reactions; that same message broadcast to all; no text check |
| `Server.OnAddReaction` | server/index.js:64-106 | unknown id: state unchanged, nothing sent; otherwise only the first matching message changes, and only in its reactions (toggled for `c` under its sender name); length and other messages kept; `update_reactions` carries the full new map to all |
| `Server.OnTyping` | server/index.js:108-116 | state unchanged; `user_typing {username, id}` to all but `c` when `c` is registered, nothing otherwise |
| `Server.OnStopTyping` | server/index.js:118-123 | state unchanged; `user_stop_typing {id: c}` to all but `c`, registered or not |
| `Server.OnDisconnect` | server/index.js:125-137 | registered: entry removed and `user_left` with its name sent to all; unregistered: state unchanged and nothing sent |
| `Server.Step` | server/index.js:22-137 | every event emits at most one event; only registration and disconnect touch the registry; only `chat message` changes the log length; the log always extends the old one with bodies unchanged |
| `Server.StepKeepsInv` | server/index.js:47-106 | every handler keeps registry entries keyed by their own id, every reaction map well formed (no empty list, no user twice per emoji) and every message id non-empty |
| `ServerRuns.RunAppendOnly` | server/index.js:58-98 | over any trace, earlier messages keep their position and every field but reactions |
| `ServerRuns.RunKeepsInv` | server/index.js:47-106 | over any trace, the server invariant holds at every step |
| `ServerRuns.RunRegisterLastWins` | server/index.js:29-34 | after any run of registrations on one connection the registry holds the most recent name; other entries and the log are unchanged |
| `ServerRuns.RunReactionsKeepOrder` | server/index.js:66-98 | any run of reaction toggles keeps the log's length, order and every field but reactions, and the registry |
| `ServerRuns.AddReactionTwice` | server/index.js:64-106 | two identical `add_reaction` events restore every message's active (emoji, user) pairs, and the whole state when the first one added |
| `ServerRuns.HandlerTwice` | server/index.js:64-106 | on a message that exists, the handler run twice changes only that message's reactions, restores its pairs, and restores the state exactly when the first run added |
| `Reactions.FindUser` | server/index.js:77-79 | None exactly when the user is not listed; otherwise the first index with that user id |
| `Reactions.RemoveAt` | server/index.js:89 | `splice(i, 1)`: one entry shorter, entries before `i` kept, entries after shifted down by one |
| `Reactions.Toggle` | server/index.js:71-95 | other emojis untouched; absent user: appended at the end of the list, created if missing; present user: first entry spliced out, key kept exactly when entries remain; well-formedness preserved |
| `Reactions.PairsMember` | server/index.js:77-79 | a pair is active exactly when the user is listed under that emoji |
| `Reactions.TogglePairs` | server/index.js:72-95 | on a well-formed map a toggle flips exactly the pair (emoji, user): removed if active, added if not |
| `Reactions.ToggleTwiceAfterAdd` | server/index.js:72-95 | when the user had not reacted and the key holds no empty list, two toggles restore the map exactly |
| `Reactions.ToggleTwiceAfterRemove` | server/index.js:81-95 | when the user had reacted, two toggles restore the map exactly if and only if the user's entry was last and equal to the re-added one |
| `Reactions.ToggleTwiceKeepsLengths` | server/index.js:72-95 | on a well-formed map two toggles restore every key and every list length |
| `Reactions.ToggleTwicePairs` | server/index.js:72-95 | on a well-formed map two toggles restore the set of active pairs |
| `Reactions.ToggleTwiceReorders` | server/index.js:83-89 | a concrete well-formed map that two toggles reorder instead of restoring |
| `JsText.TrimStart` | client/src/components/ChatRoom.jsx:173 | a suffix of the input whose cut-off part is all whitespace and that does not start with whitespace |
| `JsText.TrimEnd` | client/src/components/ChatRoom.jsx:173 | a prefix of the input whose cut-off part is all whitespace and that does not end with whitespace |
| `JsText.Trim` | client/src/components/ChatRoom.jsx:173 | a contiguous slice with only whitespace cut on both sides, starting and ending with visible characters |
| `JsText.TrimEmptyIff` | client/src/components/ChatRoom.jsx:173 | the trimmed text is empty exactly when every character is whitespace |
| `ChatRoom.AppendMessage` | client/src/components/ChatRoom.jsx:41-49 | exactly one message appended after an unchanged prefix; its reactions are kept when present and default to an empty map |
| `ChatRoom.ReplaceReactions` | client/src/components/ChatRoom.jsx:52-59 | same length and order; every message with the id gets the new map; all others unchanged |
| `ChatRoom.ToggleMatching` | client/src/components/ChatRoom.jsx:62-101 | same length and order; every message with the id is toggled for the payload's user, starting from none when reactions are missing; all others unchanged |
| `ChatRoom.MessageReactionTwice` | client/src/components/ChatRoom.jsx:62-101 | two identical `message_reaction` events keep every message's other fields and restore each well-formed map's active pairs |
| `PresenceLists.AddOnce` | client/src/components/ChatRoom.jsx:108-115 | the old list is a prefix; unchanged when the id is listed, else the entry appended; the id set gains exactly that id; distinct ids preserved |
| `PresenceLists.WithoutIds` | client/src/components/OnlineUsers.jsx:19-21 | exactly the entries whose id is outside the set: every kept entry is from the list and not excluded, and every entry not excluded is kept |
| `PresenceLists.WithoutIdsIds` | client/src/components/OnlineUsers.jsx:19-21 | the ids left after filtering are the old ids minus the excluded ones |
| `PresenceLists.WithoutIdsDistinct` | client/src/components/OnlineUsers.jsx:19-21 | filtering a list with distinct ids leaves distinct ids |
| `PresenceLists.WithoutIdsDropsAll` | client/src/components/OnlineUsers.jsx:19-21 | a list all of whose ids are excluded filters to the empty list |
| `PresenceLists.WithoutIdsAppend` | client/src/components/OnlineUsers.jsx:19-21 | filtering distributes over concatenation, so kept entries stay in order |
| `PresenceLists.WithoutIdsKeepsAll` | client/src/components/OnlineUsers.jsx:19-21 | a list with no excluded id is left as it is |
| `ChatRoom.WithoutId` | client/src/components/ChatRoom.jsx:140-142 | every entry with the leaving id is removed; distinct ids preserved |
| `ChatRoom.ClaimId` | client/src/components/ChatRoom.jsx:117-124 | a join whose name equals the local name sets the local id to the join's id; any other join leaves the user as it was |
| `ChatRoom.SetTyping` | client/src/components/ChatRoom.jsx:146-148 | the entry is stored under its id; other keys unchanged |
| `ChatRoom.ClearTyping` | client/src/components/ChatRoom.jsx:150-156 | the key is gone; other keys and values unchanged |
| `ChatRoom.ClearAfterSet` | client/src/components/ChatRoom.jsx:146-156 | a stop right after a start equals a stop alone, and restores the map when the key was absent |
| `ChatRoom.Reduce` | client/src/components/ChatRoom.jsx:41-156 | each listener writes only its own state: presence lists keep distinct ids; after `user_left` its id is among the left users and no longer among the joined; after `user_joined` it is among the joined; only message events change messages, only presence events change the presence lists, only `user_joined` changes the current user, only typing events change the typing map |
| `ChatRoom.GeneratedId` | client/src/components/ChatRoom.jsx:175 | the generated id is never empty, so the server keeps it |
| `ChatRoom.SendMessage` | client/src/components/ChatRoom.jsx:172-181 | a payload is produced exactly when the text is not all whitespace; it carries the untrimmed text and the generated id |
| `OnlineUsers.Merge` | client/src/components/OnlineUsers.jsx:9-16 | the previous list is a prefix; each appended entry comes from the joined list with an id not yet present; ids are the union; distinct ids preserved even when the joined list repeats ids |
| `OnlineUsers.MergeSingle` | client/src/components/OnlineUsers.jsx:12-16 | merging one joined user appends it exactly when its id is not yet listed |
| `OnlineUsers.MergeConcat` | client/src/components/OnlineUsers.jsx:12-16 | the joined users are visited in order: merging a concatenation is merging the first part, then the second; with `MergeSingle` this fixes the order of appended users and keeps the first of several entries sharing a new id |
| `OnlineUsers.Update` | client/src/components/OnlineUsers.jsx:6-23 | no id of a left user remains; ids are (previous plus joined) minus left; every entry comes from the previous or joined list; remaining previous users lead, in order; distinct ids preserved |
| `OnlineUsers.MergeAgainAddsOnlyLeft` | client/src/components/OnlineUsers.jsx:12-16 | merging again into an updated list appends only users that have left |
| `OnlineUsers.UpdateFixedPoint` | client/src/components/OnlineUsers.jsx:7-22 | an online list produced by the update is a fixed point of the same update |
| `OnlineUsers.UpdateIdempotent` | client/src/components/OnlineUsers.jsx:6-23 | running the update twice with the same inputs gives the same list as once |
| `OnlineUsers.CurrentUsername` | client/src/components/OnlineUsers.jsx:27-28 | an object prop gives its `username`, a string prop gives itself |
| `OnlineUsers.NameClashMarksBoth` | client/src/components/OnlineUsers.jsx:27-37 | marking is by name, not id: two connections that joined under the local name both stay online and both are marked "(You)", for either prop shape |
| `MessageReactions.ReactionCounts` | client/src/components/MessageReactions.jsx:12-21 | missing reactions give an empty map; otherwise exactly the same keys, each counting the length of its list |
| `MessageReactions.HasUserReacted` | client/src/components/MessageReactions.jsx:24-28 | false without reactions, the key or a local id; otherwise true exactly when some entry has the local id |
| `MessageReactions.Badges` | client/src/components/MessageReactions.jsx:47-54 | an emoji gets a badge exactly when its count is positive |
| `MessageReactions.Click` | client/src/components/MessageReactions.jsx:7-9 | the request is `add_reaction` with the message's id and the clicked emoji, unchanged |
| `MessageReactions.BadgesOfWellFormed` | client/src/components/MessageReactions.jsx:47-54 | on a well-formed map every emoji key gets a badge |
| `MessageReactions.ToggleCounts` | client/src/components/MessageReactions.jsx:12-21 | a toggle raises or lowers one emoji's count by one and drops its key at zero; other counts unchanged |
| `MessageReactions.SameLengthsSameCounts` | client/src/components/MessageReactions.jsx:12-21 | counts depend only on the keys and list lengths |
| `MessageReactions.ToggleTwiceCounts` | client/src/components/MessageReactions.jsx:12-21 | on a well-formed map two identical toggles restore every count |
| `MessageReactions.ToggleFlipsHighlight` | client/src/components/MessageReactions.jsx:24-28 | on a well-formed map each toggle flips the toggling user's highlight |
| `MessageList.Processed` | client/src/components/MessageList.jsx:10-23 | the entries with a truthy id not yet displayed, drawn from the list; every such entry is included |
| `MessageList.MarkDisplayed` | client/src/components/MessageList.jsx:26-45 | the set only grows, by exactly the truthy ids just processed |
| `MessageList.Effect` | client/src/components/MessageList.jsx:26-46 | both displayed sets only grow |
| `MessageList.ShownOnce` | client/src/components/MessageList.jsx:10-45 | after the effect, recomputing the notices for the same list yields none |
| `MessageList.ProcessedShrinks` | client/src/components/MessageList.jsx:12-34 | every notice for a larger displayed set is also a notice for the smaller one, and none has an id in the larger set |
| `MessageList.IsOwnMessage` | client/src/components/MessageList.jsx:66-69 | false without a user or message; otherwise true exactly when the sender id equals the local id or the sender name equals the local name |
| `Sync.ToViews` | client/src/components/ChatRoom.jsx:28-31 | the view has one entry per stored message, each a copy with its reactions present |
| `Sync.ConnectMirrors` | server/index.js:25-26 | the history sent on connect makes the newcomer's list mirror the log |
| `Sync.StepKeepsMirror` | client/src/components/ChatRoom.jsx:41-59 | with distinct stored ids, every server step keeps every mirroring client mirroring |
| `Sync.AddReactionKeepsMirror` | client/src/components/ChatRoom.jsx:52-59 | with distinct stored ids, an `add_reaction` step and its `update_reactions` broadcast keep every mirroring client mirroring |
| `Sync.LogUntouchedKeepsMirror` | client/src/components/ChatRoom.jsx:28-31 | the steps other than a chat message or a reaction leave the log alone, and what they send keeps every mirroring client mirroring, the connect history included |
| `Sync.ReplaceKeepsMirror` | client/src/components/ChatRoom.jsx:52-59 | replacing the reactions of the one message with an id mirrors a log in which the server changed only that message's reactions |
| `Sync.ChatReaches` | client/src/components/ChatRoom.jsx:41-49 | a stored chat message reaches every client, which appends it to its list |
| `Sync.DuplicateIdsDiverge` | client/src/components/ChatRoom.jsx:54-58 | with two messages sharing an id, a toggle leaves the client's view different from the log |
| `Sync.RegisterClaimsId` | client/src/components/ChatRoom.jsx:117-124 | registering the local name makes the client know its connection id and list it as joined |
| `Sync.SameNameTakesId` | client/src/components/ChatRoom.jsx:118-123 | from any server state, another connection registering the local name takes over the client's id |
| `Sync.SendStoresWithClientId` | client/src/components/ChatRoom.jsx:172-180 | a blank text sends nothing; otherwise the server stores the text under the client's id from this connection, and the sender shows it as its own |
| `Sync.ClickFlipsHighlight` | client/src/components/MessageReactions.jsx:7-28 | on a mirroring client that knows its id, a click flips that button's highlight once the update returns |
| `Sync.TypingReachesOthers` | server/index.js:109-123 | a registered typist appears in every other client's typing map, never in its own, and `stop typing` removes it |
| `Sync.UnregisteredTypingSilent` | server/index.js:110-115 | an unregistered typist changes no client |
| `Sync.DisconnectReachesClients` | server/index.js:126-135 | after a registered disconnect every client lists the id as left and not joined; an unregistered disconnect changes no client |

## Left out

- Express, socket.io, HTTP, CORS and `listen` (server/index.js:1-15, 140-142), and the client's socket connection (client/src/App.jsx:7). These are transport only. They are replaced by emissions tagged `All`, `AllExcept(c)` or `Only(c)`, delivered one event at a time by `Sync.ReceiveAll`.
- Clocks and random ids: `new Date()`, `Date.now()` and `Math.random()`. They are parameters (`now`, `freshId`, `clock`, `suffix`). One `now` serves both `new Date()` calls of `register_user`.
- Interleaving of events from different sockets. Each event is handled to completion by a sequential step function.
- Fields of a `chat message` payload other than `id` and `text`. The server spreads them into the stored message, but the model carries only the fields it uses. Payload values are modelled as strings, not arbitrary JavaScript values.
- JavaScript object key order and the `__proto__`-style special keys. A reaction map is a Dafny `map`, so the order of badges is not modelled.
- The shallow copy at client/src/components/ChatRoom.jsx:68, which shares the inner arrays with the previous state. The reducer's intended pure result is modelled.
- `OnlineUsers.CurrentUsername`: does not model a `null` prop. `typeof null` is `'object'`, so the source would throw there; the chat room always passes a string.
- The chat room's mount effect that emits `register_user` (client/src/components/ChatRoom.jsx:14-25) and the `current_users` listener (client/src/components/ChatRoom.jsx:33-38). Registration is modelled on the server side. The server never emits `current_users`.
- Sync.ConnectMirrors: assumes the client listens from the moment its socket connects. In the program the socket connects at module load (client/src/App.jsx:7) and the server sends `init_messages` at once (server/index.js:26), but the chat room, and with it the `init_messages` listener (client/src/components/ChatRoom.jsx:28-31), is mounted only after a name is submitted (client/src/App.jsx:52-56). On a first connection the history therefore reaches no listener, and the view starts empty while the log may not be; the mirror lemmas describe a client that was listening throughout.
- Sync.DisconnectReachesClients: its `d == c` case delivers `user_left` to the leaving connection as well, which in the program has already stopped receiving when the `disconnect` handler emits it; only the clients other than `c` are meaningful there.
- Debounce timers (MessageInput.jsx), `formatTime`, scroll-to-bottom, all JSX rendering, TypingIndicator.jsx, UserRegistration.jsx, App.jsx wiring and console logging. These are presentation, time or DOM behaviour.
