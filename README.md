# Chat server registry and router

A Dafny model of the multi-threaded TCP chat server in `src/server.c`. It covers the server's in-memory client table and the decisions the server makes for every line it receives:

- the table itself: `clients[]`, `client_count`, the fixed capacity `MAX_CLIENTS` = 10;
- admission of a new connection in `main`'s accept loop;
- removal by socket (`remove_client`) and by name (`admin_remove_client`), both by swap-with-last;
- username uniqueness (`is_username_unique`) and the `/username` rule;
- routing: `broadcast_message`, `send_private_message`, `send_server_private_message`, `list_clients`;
- the command dispatch of a client's handler thread (`handle_client`) and of the operator console (`handle_input`);
- the table-clearing part of `shutdown_server`.

## How the model is built

- `text.dfy` (module `ChatText`) holds the constants and the character-level helpers:
  - the C string cut-off at a terminator;
  - `strncmp`;
  - the two `strtok` calls, modelled as `SplitRecipient` and `FirstToken`;
  - the newline-joined list.
  
  It also holds `Notice`: every text the server sends or prints, by meaning. `Text(n)` gives its characters, from the source's `snprintf` and `printf` templates, including the newline `printf` ends the "Removed!" and unknown-command lines with.
- `registry.dfy` (module `Registry`) is the table as a value. It is a sequence of `Entry(socket, username, usernameSet)` in slot order. Every observable effect is an `Event`:
  - `Sent(socket, notice)` for `send`;
  - `Closed(socket)` for `close`;
  - `Printed(notice)` for the operator console replies.
  
  Each routing operation is a function from the table to the list of events it produces, in order.
- `dispatch.dfy` (module `Dispatch`) classifies lines. `ParseClientLine` and `ParseOperatorLine` follow the source's chains of `strncmp`/`strcmp` tests in their order. A step function then gives the table afterwards, the events, and whether the handler or the server stops.
- `server.dfy` (module `ChatServer`) is the imperative side:
  - `Session` is `client_info`. The table and the handler thread share the record, so the record is an object.
  - `Server` has the fixed array `clients`, `count`, `running`, and the event log `trace`.
  - Each method runs as one atomic step. Most are one region under `clients_mutex`. `HandleQuit`, `HandleClientEnd` (with `Hangup`) and `Shutdown` join several regions and the `close` calls between them (see "## Left out" and "## Findings").
  - Each method is proved against the value-level functions through the ghost field `view`, which mirrors `clients[0 .. count)`.
  - `Valid()` keeps these invariants:
    - `view` mirrors the filled slots and the array has `MAX_CLIENTS` slots;
    - the table never exceeds `MAX_CLIENTS`;
    - the listener's descriptor and every registered socket are non-negative;
    - registered sockets are distinct and none is the listener;
    - confirmed names are unique.

## Where the code and its comments or design disagree

The model follows the code:

- **Names are not trimmed.** The comment in the `/username` branch promises trimming. The code only copies the text and cuts it to `BUFFER_SIZE - 1` characters.
- **Uniqueness covers every entry.** It includes unnamed "Anonymous" sessions and the requester itself. Two consequences:
  - a client that asks for the name it already has is told the name is taken;
  - nobody can take "Anonymous" while an unnamed session is registered.
- **Prefixes are matched on fewer characters than their text.**
  - `"/private "` and `"/message "` are compared on 8 characters. A `/message` body keeps its leading blank (`MessageKeepsBlank`).
  - `"/remove "` is compared on 7 characters, so any one character can stand in for the blank (`RemoveMatchesSevenCharacters`).
- **Removing a client does not close its connection.** `admin_remove_client` sends the kick notice, sets the flag and drops the entry. The handler thread closes the socket when its `recv` ends.
- **The operator's "Removed!" line is printed for any name found by `strtok`,** whether or not a session of that name existed.

## Model

| member | source | states |
|---|---|---|
| ChatText.CutAt | src/server.c:186 | the part of the buffer a C string function sees: a prefix of it without the terminator, ended where the terminator stands |
| ChatText.SplitRecipientSound | src/server.c:269-270 | whenever both strtok calls return a string, the argument was blanks, a non-empty blank-free recipient, one blank and a non-empty body |
| ChatText.SplitRecipientComplete | src/server.c:269-270 | conversely, every such text yields exactly that recipient and that body |
| ChatText.FirstTokenComplete | src/server.c:386 | strtok returns a leading blank-free token whole, past any blanks before it |
| ChatText.FirstTokenSound | src/server.c:386 | conversely, strtok returns NULL exactly when the text is empty or all blanks, and a token it returns is non-empty, blank-free, preceded only by blanks and followed by a blank or the end |
| ChatText.SplitJoinLines | src/server.c:500-506 | lines without newlines are read back exactly from the strcat join |
| Registry.FirstIndex | src/server.c:444-446 | the first-match lookup returns the first index whose entry matches, or none when no entry matches |
| Registry.SwapRemove | src/server.c:536-538 | clients[i] = clients[--client_count]: one shorter; slot i holds the former last entry; every other slot is unchanged |
| Registry.SwapRemoveMultiset | src/server.c:536-538 | swap-with-last removes exactly the entry at i and keeps every other entry |
| Registry.RemoveBySocketSpec | src/server.c:528-542 | remove_client drops the first entry on the socket and nothing else; with no such entry the table is unchanged |
| Registry.SwapRemoveKeepsInvariants | src/server.c:536-538 | swap-with-last keeps sockets distinct and confirmed names unique |
| Registry.RemoveBySocketForgets | src/server.c:528-542 | with distinct sockets, no entry on the removed socket is left and both invariants hold |
| Registry.RenameKeepsInvariants | src/server.c:202-205 | confirming a name nobody holds changes no socket and keeps both invariants |
| Registry.AdmitKeepsInvariants | src/server.c:126-140 | admission succeeds exactly below MAX_CLIENTS, appends one entry, never exceeds MAX_CLIENTS and keeps both invariants |
| Registry.AdmitAllFills | src/server.c:126-167 | a run of admissions fills the table in arrival order up to MAX_CLIENTS; every later connection is rejected and creates no entry |
| Registry.BroadcastSends | src/server.c:424-438 | every send of a broadcast carries the message and none goes to the sender's socket |
| Registry.BroadcastCounts | src/server.c:424-438 | each socket gets the broadcast as many times as it is registered; the sender's socket never gets it |
| Registry.BroadcastExactlyOnce | src/server.c:424-438 | with distinct sockets, every registered session other than the sender gets the broadcast exactly once |
| Registry.PrivateSendsSpec | src/server.c:441-469 | nothing is sent exactly when no entry holds the recipient name; otherwise one send, to the first entry holding it, signed with the sender's name |
| Registry.ServerPrivateSendsSpec | src/server.c:472-495 | a name nobody holds gives only the console's not-found line; otherwise exactly one send, of the SERVER-signed message, to the first entry holding the name |
| Registry.KickSpec | src/server.c:544-569 | a name nobody holds changes nothing and sends nothing; otherwise only the first holder is told, and exactly that entry leaves the table |
| Registry.ListTextReadsBack | src/server.c:498-525 | the list reads back line by line as the header followed by the names in table order |
| Dispatch.ClientLineRoundTrip | src/server.c:187-334 | classifying a line loses nothing: the line is the matched prefix followed by what the branch hands on |
| Dispatch.UnnamedIsSilenced | src/server.c:265-334 | an unnamed session's chat or /private line gets only the must-set-a-username reply and changes nothing |
| Dispatch.NamedChatReachesOthers | src/server.c:314-334 | a named session's chat line reaches every other registered socket as "[name]: line", as often as that socket is registered, and never the sender; the table is unchanged |
| Dispatch.ChatReachesOthers | src/server.c:316-323 | the same for the chat branch applied to the text it hands on |
| Dispatch.ClientShutdownRefused | src/server.c:307-313 | /shutdown from a client is always refused and changes nothing |
| Dispatch.SetUsernameOutcome | src/server.c:187-251 | /username u takes the name exactly when no entry holds u and u is non-empty, and then tells the requester and all others; otherwise the requester alone hears why and nothing changes |
| Dispatch.QuitOrder | src/server.c:287-306 | /quit sends the goodbye first, then the leave notice to every other registered socket as often as it is registered and never to the quitter, then closes the socket, and the session's entry is gone |
| Dispatch.QuitTellsOthers | src/server.c:298-300 | each socket other than the quitter's gets the leave notice as many times as it is registered; the quitter's socket never gets it |
| Dispatch.QuitLayout | src/server.c:289-303 | the /quit events position by position: goodbye, the leave notices, the close |
| Dispatch.KickedLeaveQuietly | src/server.c:346-358 | a session the operator removed leaves with only its close; any other session's end first sends the disconnect notice to every other registered socket, as often as it is registered and never to its own, then closes |
| Dispatch.ClientStepKeepsInvariants | src/server.c:184-335 | no line recv can deliver breaks the table invariants or grows the table |
| Dispatch.CommandStepKeepsInvariants | src/server.c:187-334 | the same for every branch of the dispatch |
| Dispatch.ClientEndKeepsInvariants | src/server.c:346-358 | the end of a handler keeps both invariants and leaves no entry on its socket |
| Dispatch.AcceptOutcome | src/server.c:125-169 | a connection is added as an unnamed "Anonymous" entry, and prompted, exactly when there is room and malloc and pthread_create succeed; otherwise the table is unchanged and the socket is closed last, after the prompt when only the thread failed to start; a full table or a failed malloc gives only the close |
| Dispatch.ConsoleLine | src/server.c:367-369 | the operator command is a prefix of what fgets read, without newline or terminator, and cut exactly at the first newline or terminator |
| Dispatch.KickedEndDropsNewcomer | src/server.c:356-357 | as written: a reused descriptor admitted between close and remove_client is registered twice, and after a kick the newcomer is prompted but its entry is removed |
| Dispatch.EndThenReuseKeepsNewcomer | src/server.c:116-140 | with the entry removed before its descriptor is released, a newcomer on that descriptor is admitted whenever there is room, is the only entry on it, and both invariants hold |
| Dispatch.CloseAll | src/server.c:609-613 | one close per registered socket, in slot order |
| Dispatch.KickedIsTold | src/server.c:384-392 | the session an operator line removes is the one told it was kicked and the one removed by swap-with-last; "Removed!" is printed after; a /remove line that removes nobody leaves the table alone and prints "Removed!" for a name nobody holds, or nothing when strtok finds no name |
| Dispatch.RemoveWithoutName | src/server.c:384-391 | "/remove" followed only by blanks removes nobody and prints nothing |
| Dispatch.ShutdownNotifiesBeforeClosing | src/server.c:598-625 | shutdown tells every client once before any close, then closes each client and the listener, and empties the table |
| Dispatch.ShutdownLayout | src/server.c:598-625 | the shutdown events in order: one notice per entry, one close per entry, then the listener's close |
| Dispatch.ShutdownTellsOnce | src/server.c:604-605 | with distinct sockets, each registered client is told of the shutdown exactly once |
| Dispatch.BroadcastAllOf | src/server.c:424-438 | when no registered socket is the sender, the broadcast is one send per entry in slot order |
| Dispatch.UnknownStaysLocal | src/server.c:414-417 | unrecognised operator input is answered on the console only |
| Dispatch.MessageKeepsBlank | src/server.c:402-413 | "/message b" reaches every client as "[SERVER]:  b", keeping the blank |
| Dispatch.MessageParses | src/server.c:402-405 | "/message " is matched on 8 characters; the body starts at the blank |
| Dispatch.MessageReachesAll | src/server.c:402-413 | a /message body goes to every registered client in slot order |
| Dispatch.RemoveMatchesSevenCharacters | src/server.c:384-386 | "/remove" followed by any one character is the remove command, and the name is read from offset 8 |
| Dispatch.OperatorRemoveOutcome | src/server.c:384-392 | "/remove name" tells and removes the first session of that name and nothing else; the console confirms in either case |
| ChatServer.Session.constructor | src/server.c:128-139 | a new record: the socket, "Anonymous", not confirmed, not removed |
| ChatServer.Server.constructor | src/server.c:24-28 | the starting state: an empty table, running, nothing sent yet |
| ChatServer.Server.FindName | src/server.c:547-549 | the name scan stops at the first session of that name, or at the count when there is none |
| ChatServer.Server.FindSocket | src/server.c:531-533 | the socket scan stops at the first session on that socket, or at the count |
| ChatServer.Server.IsUsernameUnique | src/server.c:572-582 | true exactly when no registered session, confirmed or not, has that name |
| ChatServer.Server.DropAt | src/server.c:536-538 | the array loses slot i by swap-with-last, the freed slot is cleared, and the invariants hold |
| ChatServer.Server.RemoveClient | src/server.c:528-542 | the table becomes RemoveBySocket of the old table |
| ChatServer.Server.AdminRemoveClient | src/server.c:544-569 | the table and the events are those of Kick; only the removed session's record has its flag set |
| ChatServer.Server.KickAt | src/server.c:549-564 | the session in slot i is told, flagged and dropped; no other record's flag changes |
| ChatServer.Server.Broadcast | src/server.c:424-438 | the loop appends exactly BroadcastSends of the table |
| ChatServer.Server.SendPrivate | src/server.c:441-469 | the loop appends exactly PrivateSends of the table |
| ChatServer.Server.SendServerPrivate | src/server.c:472-495 | the loop appends exactly ServerPrivateSends of the table |
| ChatServer.Server.BuildList | src/server.c:500-506 | the strcat loop builds exactly the list text of the table |
| ChatServer.Server.ListClients | src/server.c:498-525 | the list is printed for the operator and sent to a client otherwise |
| ChatServer.Server.Shutdown | src/server.c:598-625 | the table is emptied, the server stops, and the events are those of the shutdown outcome |
| ChatServer.Server.CloseClients | src/server.c:608-614 | the loop closes every registered socket in slot order |
| ChatServer.Server.Push | src/server.c:140 | clients[client_count++] = record: the table grows by the record's row and the invariants hold |
| ChatServer.Server.Pop | src/server.c:156 | client_count--: the last row leaves the table |
| ChatServer.Server.Enrol | src/server.c:137-161 | with the thread started: the new unnamed entry is added and prompted, as AcceptStep says |
| ChatServer.Server.Abandon | src/server.c:137-157 | with no thread: the prompt goes out, the socket is closed and the table is as before, as AcceptStep says |
| ChatServer.Server.Withdraw | src/server.c:153-156 | the socket is closed and the record just added leaves again |
| ChatServer.Server.Register | src/server.c:137-161 | an allocated connection ends as AcceptStep says; a session is returned exactly when the thread started |
| ChatServer.Server.Accept | src/server.c:125-169 | the table and the events are those of AcceptStep; a fresh session is returned exactly when there was room and both malloc and pthread_create succeeded |
| ChatServer.Server.ConfirmName | src/server.c:202-205 | the handler's own record takes the name and the flag; the table becomes Rename of the old one |
| ChatServer.Server.HandleUsername | src/server.c:187-251 | the table, the record and the events are those of SetUsernameStep |
| ChatServer.Server.AnnounceName | src/server.c:200-227 | a free non-empty name is confirmed, the requester told, and the others told, as SetUsernameStep says |
| ChatServer.Server.HandlePrivate | src/server.c:265-282 | the events are those of PrivateStep; the table is unchanged |
| ChatServer.Server.HandleQuit | src/server.c:287-306 | the table and the events are those of QuitStep |
| ChatServer.Server.HandleChat | src/server.c:314-334 | the events are those of ChatStep; the table is unchanged |
| ChatServer.Server.HandleCommand | src/server.c:187-334 | every branch of the dispatch has the effect CommandStep gives, including whether the handler ends |
| ChatServer.Server.HandleClientLine | src/server.c:184-335 | one received buffer has the effect ClientStep gives for the text before its terminator |
| ChatServer.Server.HandleClientEnd | src/server.c:346-358 | the end of a handler has the effect ClientEnd gives |
| ChatServer.Server.Hangup | src/server.c:356-357 | the socket is closed, then remove_client runs |
| ChatServer.Server.HandleRemove | src/server.c:384-392 | the /remove branch has the effect OperatorCommandStep gives; only the removed record is flagged |
| ChatServer.Server.HandleShutdown | src/server.c:376-379 | the /shutdown branch has the effect OperatorCommandStep gives and stops the server |
| ChatServer.Server.HandleNotice | src/server.c:372-418 | the branches that only send or print have the effect OperatorCommandStep gives |
| ChatServer.Server.Notify | src/server.c:372-418 | the sending and printing branches append exactly the events OperatorCommandStep gives and leave the table alone |
| ChatServer.Server.HandleOperatorCommand | src/server.c:372-418 | every branch of the operator dispatch has the effect OperatorCommandStep gives |
| ChatServer.Server.HandleOperatorLine | src/server.c:362-421 | one console line has the effect OperatorStep gives; only the record it removes is flagged |

## Left out

- Sockets, `accept`, `recv`, `send` and `close` are not modelled as I/O. A send is a `Sent` event and a close is a `Closed` event. The received buffer and the console line are parameters.
- Threads and `clients_mutex` are left out. Each method is one atomic step. The unlock and relock around the join broadcast, and the unlocked read in the operator branch of `list_clients`, are not modelled.
- ChatServer.Server.HandleQuit, ChatServer.Server.HandleClientEnd, ChatServer.Server.Hangup and ChatServer.Server.Shutdown each join several locked regions and unlocked `close` calls into one step. In the source, `close(socket)` runs before `remove_client(socket)` (lines 303-304 and 356-357). In between, `accept` can give the same descriptor to a new connection and admit it, so two entries share a socket; after a kick, `remove_client` then removes the newcomer's entry. `Valid()`'s distinct sockets and `Accept`'s requirement of an unregistered socket rely on this joining. The window is shown in Dispatch.KickedEndDropsNewcomer, not in the methods.
- ChatServer.Server.BuildList: the `strcat` calls can overflow the `BUFFER_SIZE * 3` list buffer (up to ten names of 1023 characters); the model's list text has no bound.
- The receive loop of `handle_client` and the `fgets` loop of `handle_input` are not modelled as loops. One pass is `HandleClientLine` or `HandleOperatorLine`. The end of the receive loop is `HandleClientEnd`.
- `printf` logging is left out: connection counts, debug lines, the chat log line, and the disconnect log. The console output that answers the operator is modelled: the list, "Removed!", "not found" and the unknown-command line.
- `send_server_help` is left out: the beep and the help text. The operator's `/help` produces no event.
- The `/help` branch of `handle_client` that compares the client's socket with the listening socket is not modelled, because an accepted connection never has the listening descriptor.
- Failed sends are not modelled; every send is delivered. The source only logs them, except that a failed "Username set" send skips the join broadcast.
- `snprintf` truncation of formatted messages is not modelled. Usernames are cut to `BUFFER_SIZE - 1` characters, and that cut is modelled.
- Registry.SenderName: when the sender of a private message is no longer registered, the source formats an uninitialised buffer; the model signs with the empty name.
- Dispatch.ParseOperatorLine: a bare "/remove" makes the source read past the line's terminator; the model reads nothing there.
- ChatServer.Session.constructor: `removed_by_admin` is never initialised in the source; the model starts it as false.
- Freed memory is not modelled. `admin_remove_client` frees the record after setting its flag, and the handler reads the flag later. In the model the record stays alive, so the handler reads the flag as set.
- `exit(0)` at the end of `shutdown_server` is not modelled; the model stops with `running` false.
- `src/client.c` is not part of this model: it is terminal I/O and thread coordination.
- The port parsing and socket setup in `main` are not part of this model.
- Notices are a datatype. The exact characters of each are `Text(n)`, but routing lemmas speak of the notice, not of its characters.

## Findings

| source | as written | input that shows it | evidently intended | confidence | as-written member | corrected member |
|---|---|---|---|---|---|---|
| src/server.c:356-357 | the handler calls `close(socket)` and only then `remove_client(socket)`, outside `clients_mutex`; `/quit` does the same at lines 303-304 | a session on descriptor 4 is removed by the operator and its connection ends; after the close, `accept` returns descriptor 4 for a new connection and admits it; `remove_client(4)` then drops the newcomer's entry, whose handler runs on unregistered (without a kick, two entries share descriptor 4 until the removal) | the entry leaves the table before its descriptor is released | not executed | Dispatch.KickedEndDropsNewcomer | Dispatch.EndThenReuseKeepsNewcomer |
