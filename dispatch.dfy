/** What one received line does. handle_client classifies a client's line
 *  and handle_input an operator's line; each branch is one step that
 *  yields the table afterwards and the events in the order they happen. */
module Dispatch {
  import opened ChatText
  import opened Registry

  // ------------------------------------------------------------ client side

  /** The branches of handle_client, in the order they are tried. */
  datatype ClientCommand =
    | SetUsername(requested: string)   // strncmp(line, "/username ", 10)
    | Help                             // "/help"
    | Private(rest: string)            // strncmp(line, "/private ", 8): line + 8
    | List                             // "/list"
    | Quit                             // "/quit"
    | Shutdown                         // "/shutdown"
    | Chat(text: string)               // anything else

  function ParseClientLine(line: string): ClientCommand
  {
    if StrNCmpEq(line, "/username ", 10) then SetUsername(line[10..])
    else if line == "/help" then Help
    else if StrNCmpEq(line, "/private ", 8) then Private(line[8..])
    else if line == "/list" then List
    else if line == "/quit" then Quit
    else if line == "/shutdown" then Shutdown
    else Chat(line)
  }

  /** The line a command came from: the prefix that was matched, then the
   *  part the branch hands on. */
  function ClientLineOf(c: ClientCommand): string
  {
    match c
    case SetUsername(requested) => "/username " + requested
    case Help => "/help"
    case Private(rest) => "/private" + rest
    case List => "/list"
    case Quit => "/quit"
    case Shutdown => "/shutdown"
    case Chat(text) => text
  }

  /** Classification loses nothing: every line is its command's line. */
  lemma ClientLineRoundTrip(line: string)
    ensures ClientLineOf(ParseClientLine(line)) == line
  {
    match ParseClientLine(line)
    case SetUsername(requested) =>
      assert line == line[..10] + line[10..];
    case Private(rest) =>
      assert line == line[..8] + line[8..];
    case _ =>
  }

  /** One step of a handler: the table afterwards, the handler's own session
   *  afterwards, the events in order, and whether the handler ends. */
  datatype Step = Step(reg: seq<Entry>, me: Entry, out: seq<Event>, quit: bool)

  /** The "/username " branch: the uniqueness check runs on the requested
   *  text as received, then the text is cut to BUFFER_SIZE - 1 characters
   *  and must not be empty. Nothing is trimmed. */
  function SetUsernameStep(reg: seq<Entry>, me: Entry, requested: string): Step
  {
    if !NameFree(reg, requested) then Step(reg, me, [Sent(me.socket, NameTaken)], false)
    else
      var name := Truncate(requested, BufferSize - 1);
      if name == [] then Step(reg, me, [Sent(me.socket, NameInvalid)], false)
      else
        var renamed := Rename(reg, me.socket, name);
        Step(renamed, Entry(me.socket, name, true),
             [Sent(me.socket, NameSetNotice(name))] + BroadcastSends(renamed, JoinNotice(name), me.socket),
             false)
  }

  /** The "/private" branch: an unnamed sender is refused; otherwise the
   *  recipient and the body are split off and the message is routed. */
  function PrivateStep(reg: seq<Entry>, me: Entry, rest: string): Step
  {
    if !me.usernameSet then Step(reg, me, [Sent(me.socket, MustSetName)], false)
    else match SplitRecipient(rest)
      case Some((recipient, body)) => Step(reg, me, PrivateSends(reg, body, me.socket, recipient), false)
      case None => Step(reg, me, [], false)
  }

  /** The "/quit" branch: goodbye, the others told, the socket closed, the
   *  entry removed. */
  function QuitStep(reg: seq<Entry>, me: Entry): Step
  {
    Step(RemoveBySocket(reg, me.socket), me,
         [Sent(me.socket, GoodbyeNotice(me.username))]
           + BroadcastSends(reg, LeftNotice(me.username), me.socket)
           + [Closed(me.socket)],
         true)
  }

  /** Any other line: a chat line from a named session goes to the others;
   *  an unnamed session is told to pick a name. */
  function ChatStep(reg: seq<Entry>, me: Entry, text: string): Step
  {
    if me.usernameSet then Step(reg, me, BroadcastSends(reg, ChatLine(me.username, text), me.socket), false)
    else Step(reg, me, [Sent(me.socket, MustSetName)], false)
  }

  /** What a handler does for a parsed command. */
  function CommandStep(reg: seq<Entry>, me: Entry, c: ClientCommand): Step
  {
    match c
    case SetUsername(requested) => SetUsernameStep(reg, me, requested)
    case Help => Step(reg, me, [Sent(me.socket, HelpDenied)], false)
    case Private(rest) => PrivateStep(reg, me, rest)
    case List => Step(reg, me, [Sent(me.socket, ClientList(ListText(reg)))], false)
    case Quit => QuitStep(reg, me)
    case Shutdown => Step(reg, me, [Sent(me.socket, ShutdownDenied)], false)
    case Chat(text) => ChatStep(reg, me, text)
  }

  /** One line received by the handler of session me. The branch comparing
   *  the client's socket with the listening socket is not reachable: an
   *  accepted connection never has the listening descriptor. */
  function ClientStep(reg: seq<Entry>, me: Entry, line: string): Step
  {
    CommandStep(reg, me, ParseClientLine(line))
  }

  /** The end of handle_client once recv reports the peer gone: unless the
   *  operator removed the session, the others hear that it disconnected;
   *  then its socket is closed and its entry removed. */
  function ClientEnd(reg: seq<Entry>, me: Entry, removedByAdmin: bool): Step
  {
    Step(RemoveBySocket(reg, me.socket), me,
         (if removedByAdmin then [] else BroadcastSends(reg, DisconnectNotice(me.username), me.socket))
           + [Closed(me.socket)],
         true)
  }

  /** An unnamed session can neither chat nor whisper: it is told to pick a
   *  name and nothing else happens. */
  lemma UnnamedIsSilenced(reg: seq<Entry>, me: Entry, line: string)
    requires !me.usernameSet
    requires ParseClientLine(line).Chat? || ParseClientLine(line).Private?
    ensures ClientStep(reg, me, line) == Step(reg, me, [Sent(me.socket, MustSetName)], false)
  {
  }

  /** A named session's chat line reaches every other registered socket, as
   *  often as it is registered, formatted "[<name>]: <line>"; never the
   *  sender; the table is unchanged. */
  lemma NamedChatReachesOthers(reg: seq<Entry>, me: Entry, line: string, x: int)
    requires me.usernameSet && ParseClientLine(line).Chat?
    ensures var st := ClientStep(reg, me, line);
      var m := ChatLine(me.username, line);
      st.reg == reg && st.me == me && !st.quit &&
      (forall k :: 0 <= k < |st.out| ==> st.out[k] == Sent(st.out[k].socket, m) && st.out[k].socket != me.socket) &&
      multiset(st.out)[Sent(x, m)] == (if x == me.socket then 0 else multiset(Sockets(reg))[x])
  {
    assert ClientStep(reg, me, line) == ChatStep(reg, me, line) by {
      ClientLineRoundTrip(line);
    }
    ChatReachesOthers(reg, me, line, x);
  }

  /** The same for the chat branch on the text it hands on. */
  lemma ChatReachesOthers(reg: seq<Entry>, me: Entry, text: string, x: int)
    requires me.usernameSet
    ensures var st := ChatStep(reg, me, text);
      var m := ChatLine(me.username, text);
      st.reg == reg && st.me == me && !st.quit &&
      (forall k :: 0 <= k < |st.out| ==> st.out[k] == Sent(st.out[k].socket, m) && st.out[k].socket != me.socket) &&
      multiset(st.out)[Sent(x, m)] == (if x == me.socket then 0 else multiset(Sockets(reg))[x])
  {
    BroadcastCounts(reg, ChatLine(me.username, text), me.socket, x);
  }

  /** "/shutdown" from a client is refused whatever its state. */
  lemma ClientShutdownRefused(reg: seq<Entry>, me: Entry)
    ensures ClientStep(reg, me, "/shutdown") == Step(reg, me, [Sent(me.socket, ShutdownDenied)], false)
  {
    var line := "/shutdown";
    assert line[..8][1] != "/private "[..8][1];
    assert ParseClientLine(line) == Shutdown;
  }

  /** The "/username <u>" outcome, for a line that fits the receive buffer:
   *  the name is taken exactly when nobody (the requester included) holds
   *  u and u is not empty; otherwise the requester alone is told why and
   *  nothing changes. */
  lemma SetUsernameOutcome(reg: seq<Entry>, me: Entry, u: string)
    requires |"/username " + u| < BufferSize
    ensures var st := ClientStep(reg, me, "/username " + u);
      !st.quit &&
      (NameFree(reg, u) && u != [] ==>
        st.me == Entry(me.socket, u, true) && st.reg == Rename(reg, me.socket, u) &&
        st.out == [Sent(me.socket, NameSetNotice(u))] + BroadcastSends(st.reg, JoinNotice(u), me.socket)) &&
      (!NameFree(reg, u) ==> st == Step(reg, me, [Sent(me.socket, NameTaken)], false)) &&
      (NameFree(reg, u) && u == [] ==> st == Step(reg, me, [Sent(me.socket, NameInvalid)], false))
  {
    var line := "/username " + u;
    assert line[..10] == "/username ";
    assert line[10..] == u;
    assert ParseClientLine(line) == SetUsername(u);
    assert Truncate(u, BufferSize - 1) == u;
  }

  /** "/quit": the goodbye comes first, then the others hear of the leave,
   *  then the socket is closed; the session is gone from the table. */
  lemma QuitOrder(reg: seq<Entry>, me: Entry, line: string, x: int)
    requires SocketsDistinct(reg) && ParseClientLine(line) == Quit
    ensures var st := ClientStep(reg, me, line);
      var n := |st.out|;
      st.quit && n >= 2 &&
      st.out[0] == Sent(me.socket, GoodbyeNotice(me.username)) &&
      st.out[n - 1] == Closed(me.socket) &&
      (forall k :: 1 <= k < n - 1 ==> st.out[k] == Sent(st.out[k].socket, LeftNotice(me.username)) && st.out[k].socket != me.socket) &&
      multiset(st.out)[Sent(x, LeftNotice(me.username))] == (if x == me.socket then 0 else multiset(Sockets(reg))[x]) &&
      SocketsDistinct(st.reg) &&
      (forall k :: 0 <= k < |st.reg| ==> st.reg[k].socket != me.socket) &&
      multiset(st.reg) <= multiset(reg)
  {
    assert ClientStep(reg, me, line) == QuitStep(reg, me);
    QuitLayout(reg, me);
    QuitTellsOthers(reg, me, x);
    RemoveBySocketForgets(reg, me.socket);
    RemoveBySocketSpec(reg, me.socket);
  }

  /** Every other registered socket hears of the leave, as often as it is
   *  registered; the quitting socket never does. */
  lemma QuitTellsOthers(reg: seq<Entry>, me: Entry, x: int)
    ensures multiset(QuitStep(reg, me).out)[Sent(x, LeftNotice(me.username))] ==
      (if x == me.socket then 0 else multiset(Sockets(reg))[x])
  {
    var e := Sent(x, LeftNotice(me.username));
    var g := [Sent(me.socket, GoodbyeNotice(me.username))];
    var b := BroadcastSends(reg, LeftNotice(me.username), me.socket);
    var c := [Closed(me.socket)];
    assert QuitStep(reg, me).out == g + b + c;
    assert multiset(g + b + c) == multiset(g) + multiset(b) + multiset(c);
    BroadcastCounts(reg, LeftNotice(me.username), me.socket, x);
  }

  /** The events of the "/quit" branch, position by position. */
  lemma QuitLayout(reg: seq<Entry>, me: Entry)
    ensures var out := QuitStep(reg, me).out;
      var n := |out|;
      n >= 2 &&
      out[0] == Sent(me.socket, GoodbyeNotice(me.username)) &&
      out[n - 1] == Closed(me.socket) &&
      forall k :: 1 <= k < n - 1 ==> out[k] == Sent(out[k].socket, LeftNotice(me.username)) && out[k].socket != me.socket
  {
    var b := BroadcastSends(reg, LeftNotice(me.username), me.socket);
    var out := [Sent(me.socket, GoodbyeNotice(me.username))] + b + [Closed(me.socket)];
    assert QuitStep(reg, me).out == out;
    assert forall k :: 1 <= k < |out| - 1 ==> out[k] == b[k - 1];
  }

  /** A session the operator removed leaves without a word to anyone. */
  lemma KickedLeaveQuietly(reg: seq<Entry>, me: Entry, x: int)
    ensures ClientEnd(reg, me, true).out == [Closed(me.socket)]
    ensures var out := ClientEnd(reg, me, false).out;
      var n := |out|;
      var m := DisconnectNotice(me.username);
      n >= 1 && out[n - 1] == Closed(me.socket) &&
      (forall k :: 0 <= k < n - 1 ==> out[k] == Sent(out[k].socket, m) && out[k].socket != me.socket) &&
      multiset(out)[Sent(x, m)] == (if x == me.socket then 0 else multiset(Sockets(reg))[x])
  {
    var m := DisconnectNotice(me.username);
    var b := BroadcastSends(reg, m, me.socket);
    var out := b + [Closed(me.socket)];
    assert ClientEnd(reg, me, false).out == out;
    assert forall k :: 0 <= k < |out| - 1 ==> out[k] == b[k];
    assert multiset(out) == multiset(b) + multiset{Closed(me.socket)};
    BroadcastCounts(reg, m, me.socket, x);
  }

  /** No client line can break the table invariants: sockets stay distinct
   *  and confirmed names stay unique, for every line recv can deliver. */
  lemma ClientStepKeepsInvariants(reg: seq<Entry>, me: Entry, line: string)
    requires SocketsDistinct(reg) && NamesUnique(reg)
    requires |line| < BufferSize
    ensures var st := ClientStep(reg, me, line);
      SocketsDistinct(st.reg) && NamesUnique(st.reg) && |st.reg| <= |reg|
  {
    var c := ParseClientLine(line);
    assert c.SetUsername? ==> |c.requested| < BufferSize by {
      ClientLineRoundTrip(line);
    }
    CommandStepKeepsInvariants(reg, me, c);
  }

  /** The same for a parsed command whose requested name fits the buffer. */
  lemma CommandStepKeepsInvariants(reg: seq<Entry>, me: Entry, c: ClientCommand)
    requires SocketsDistinct(reg) && NamesUnique(reg)
    requires c.SetUsername? ==> |c.requested| < BufferSize
    ensures var st := CommandStep(reg, me, c);
      SocketsDistinct(st.reg) && NamesUnique(st.reg) && |st.reg| <= |reg|
  {
    match c
    case SetUsername(requested) =>
      if NameFree(reg, requested) {
        assert Truncate(requested, BufferSize - 1) == requested;
        RenameKeepsInvariants(reg, me.socket, requested);
      }
    case Quit =>
      RemoveBySocketForgets(reg, me.socket);
      RemoveBySocketSpec(reg, me.socket);
    case _ =>
  }

  /** Neither way out of a handler breaks the table invariants. */
  lemma ClientEndKeepsInvariants(reg: seq<Entry>, me: Entry, removedByAdmin: bool)
    requires SocketsDistinct(reg) && NamesUnique(reg)
    ensures var st := ClientEnd(reg, me, removedByAdmin);
      SocketsDistinct(st.reg) && NamesUnique(st.reg) &&
      forall k :: 0 <= k < |st.reg| ==> st.reg[k].socket != me.socket
  {
    RemoveBySocketForgets(reg, me.socket);
  }

  // ------------------------------------------------------------ admission

  /** One pass of the accept loop for a new connection s. The allocation
   *  and the thread start are outcomes of the environment. A refused or
   *  failed connection is closed; a failed thread start rolls the count
   *  back after the prompt went out. */
  function AcceptStep(reg: seq<Entry>, s: int, allocOk: bool, threadStarted: bool): (seq<Entry>, seq<Event>)
  {
    match Admit(reg, s)
    case None => (reg, [Closed(s)])
    case Some(grown) =>
      if !allocOk then (reg, [Closed(s)])
      else if threadStarted then (grown, [Sent(s, Prompt)])
      else (reg, [Sent(s, Prompt), Closed(s)])
  }

  /** The table grows by exactly the new unnamed session when there is room
   *  and everything succeeds; in every other case it is as before and the
   *  connection is closed. */
  lemma AcceptOutcome(reg: seq<Entry>, s: int, allocOk: bool, threadStarted: bool)
    requires |reg| <= MaxClients
    ensures var (r, out) := AcceptStep(reg, s, allocOk, threadStarted);
      |r| <= MaxClients &&
      (|reg| < MaxClients && allocOk && threadStarted ==>
        r == reg + [Entry(s, Anonymous, false)] && out == [Sent(s, Prompt)]) &&
      (!(|reg| < MaxClients && allocOk && threadStarted) ==>
        r == reg && out[|out| - 1] == Closed(s)) &&
      (|reg| < MaxClients && allocOk && !threadStarted ==> out == [Sent(s, Prompt), Closed(s)]) &&
      (|reg| < MaxClients && !allocOk ==> out == [Closed(s)]) &&
      (|reg| == MaxClients ==> out == [Closed(s)])
  {
  }

  // ------------------------------------------- a descriptor reused at the end

  /** The end of a handler as the source orders it, when the next connection
   *  is given the descriptor just closed: close(socket) runs outside
   *  clients_mutex, accept's locked region admits the newcomer on the same
   *  number, and only then does remove_client drop the first entry on it. */
  function EndThenReuseAsWritten(reg: seq<Entry>, me: Entry, removedByAdmin: bool): (seq<Entry>, seq<Event>)
  {
    var (grown, greeted) := AcceptStep(reg, me.socket, true, true);
    (RemoveBySocket(grown, me.socket), ClientEnd(reg, me, removedByAdmin).out + greeted)
  }

  /** The same connection when the entry leaves before its descriptor is
   *  released, as ClientEnd takes both in one step: accept then sees the
   *  table without the old session. */
  function EndThenReuse(reg: seq<Entry>, me: Entry, removedByAdmin: bool): (seq<Entry>, seq<Event>)
  {
    var st := ClientEnd(reg, me, removedByAdmin);
    var (grown, greeted) := AcceptStep(st.reg, me.socket, true, true);
    (grown, st.out + greeted)
  }

  /** As written, two entries share a socket between the close and the
   *  removal, and a session the operator removed takes the newcomer's
   *  entry with it: the newcomer is prompted but left out of the table. */
  lemma KickedEndDropsNewcomer(me: Entry)
    ensures AcceptStep([me], me.socket, true, true).0 == [me, Entry(me.socket, Anonymous, false)]
    ensures !SocketsDistinct(AcceptStep([me], me.socket, true, true).0)
    ensures EndThenReuseAsWritten([], me, true) == ([], [Closed(me.socket), Sent(me.socket, Prompt)])
  {
    var both := AcceptStep([me], me.socket, true, true).0;
    assert both[0].socket == both[1].socket;
    var newcomer := [Entry(me.socket, Anonymous, false)];
    assert Admit([], me.socket) == Some(newcomer) by {
      assert [] + newcomer == newcomer;
    }
    assert IndexOfSocket(newcomer, me.socket) == Some(0);
    assert ClientEnd([], me, true).out == [Closed(me.socket)];
    assert [Closed(me.socket)] + [Sent(me.socket, Prompt)] == [Closed(me.socket), Sent(me.socket, Prompt)];
  }

  /** Removing before closing keeps the newcomer: it is admitted whenever
   *  the table has room once the old session is gone, it is then the only
   *  entry on its socket, and both invariants hold. */
  lemma EndThenReuseKeepsNewcomer(reg: seq<Entry>, me: Entry, removedByAdmin: bool)
    requires SocketsDistinct(reg) && NamesUnique(reg) && |reg| <= MaxClients
    ensures var (r, out) := EndThenReuse(reg, me, removedByAdmin);
      var rest := RemoveBySocket(reg, me.socket);
      SocketsDistinct(r) && NamesUnique(r) &&
      (|rest| < MaxClients ==>
        r == rest + [Entry(me.socket, Anonymous, false)] &&
        out[|out| - 1] == Sent(me.socket, Prompt) &&
        forall k :: 0 <= k < |r| - 1 ==> r[k].socket != me.socket)
  {
    var rest := RemoveBySocket(reg, me.socket);
    RemoveBySocketForgets(reg, me.socket);
    RemoveBySocketSpec(reg, me.socket);
    AdmitKeepsInvariants(rest, me.socket);
  }

  // ----------------------------------------------------------- operator side

  /** The command fgets delivers: the text up to the first newline or NUL
   *  (strcspn on the newline, then the string terminator). */
  function ConsoleLine(raw: string): (r: string)
    ensures r <= raw && '\n' !in r && '\0' !in r
    ensures |r| < |raw| ==> raw[|r|] == '\n' || raw[|r|] == '\0'
  {
    CutAt(CutAt(raw, '\0'), '\n')
  }

  /** The branches of handle_input, in the order they are tried. */
  datatype OperatorCommand =
    | ServerHelp                       // "/help"
    | ServerShutdown                   // "/shutdown"
    | ServerList                       // "/list"
    | Remove(rest: string)             // strncmp(line, "/remove ", 7): line + 8
    | ServerPrivate(rest: string)      // strncmp(line, "/private ", 8): line + 8
    | Message(body: string)            // strncmp(line, "/message ", 8): line + 8
    | Unknown

  /** A bare "/remove" makes the source read one character past the line's
   *  terminator; the model reads nothing there. */
  function ParseOperatorLine(line: string): OperatorCommand
  {
    if line == "/help" then ServerHelp
    else if line == "/shutdown" then ServerShutdown
    else if line == "/list" then ServerList
    else if StrNCmpEq(line, "/remove ", 7) then Remove(if |line| >= 8 then line[8..] else [])
    else if StrNCmpEq(line, "/private ", 8) then ServerPrivate(line[8..])
    else if StrNCmpEq(line, "/message ", 8) then Message(line[8..])
    else Unknown
  }

  /** What the operator's line does: the table afterwards, the events in
   *  order, and whether the server stops. */
  datatype OperatorOutcome = OperatorOutcome(reg: seq<Entry>, out: seq<Event>, stop: bool)

  /** Closing every registered socket in index order. */
  function CloseAll(reg: seq<Entry>): (r: seq<Event>)
    ensures |r| == |reg| && forall k :: 0 <= k < |reg| ==> r[k] == Closed(reg[k].socket)
  {
    if reg == [] then [] else CloseAll(reg[..|reg| - 1]) + [Closed(reg[|reg| - 1].socket)]
  }

  /** shutdown_server up to the process exit: everyone (sender -1) is told,
   *  then every client socket is closed, the table is emptied, and the
   *  listening socket is closed. */
  function ShutdownOutcome(reg: seq<Entry>, listener: int): OperatorOutcome
  {
    OperatorOutcome([], BroadcastSends(reg, ShuttingDown, -1) + CloseAll(reg) + [Closed(listener)], true)
  }

  /** The operator's "/remove" name, if the line has one. */
  function RemoveTarget(rest: string): Option<string>
  {
    FirstToken(rest)
  }

  /** What a parsed operator command does. */
  function OperatorCommandStep(reg: seq<Entry>, listener: int, c: OperatorCommand): OperatorOutcome
  {
    match c
    case ServerHelp => OperatorOutcome(reg, [], false)
    case ServerShutdown => ShutdownOutcome(reg, listener)
    case ServerList => OperatorOutcome(reg, [Printed(ClientList(ListText(reg)))], false)
    case Remove(rest) =>
      (match RemoveTarget(rest)
        case Some(name) =>
          var (r, out) := Kick(reg, name);
          OperatorOutcome(r, out + [Printed(RemovedNotice(name))], false)
        case None => OperatorOutcome(reg, [], false))
    case ServerPrivate(rest) =>
      (match SplitRecipient(rest)
        case Some((recipient, body)) => OperatorOutcome(reg, ServerPrivateSends(reg, body, recipient), false)
        case None => OperatorOutcome(reg, [], false))
    case Message(body) => OperatorOutcome(reg, BroadcastSends(reg, ServerNotice(body), listener), false)
    case Unknown => OperatorOutcome(reg, [Printed(UnknownCommand)], false)
  }

  /** What one operator line does. */
  function OperatorStep(reg: seq<Entry>, listener: int, line: string): OperatorOutcome
  {
    OperatorCommandStep(reg, listener, ParseOperatorLine(line))
  }

  /** The slot of the session a parsed operator command removes, if any. */
  function KickTarget(reg: seq<Entry>, c: OperatorCommand): Option<nat>
  {
    match c
    case Remove(rest) =>
      (match RemoveTarget(rest)
        case Some(name) => IndexOfName(reg, name)
        case None => None)
    case _ => None
  }

  /** The slot of the session an operator line removes, if any. */
  function KickedBy(reg: seq<Entry>, line: string): Option<nat>
  {
    KickTarget(reg, ParseOperatorLine(line))
  }

  /** The session an operator line removes is the one told it was kicked,
   *  and the one that leaves the table by swap-with-last. A "/remove" line
   *  that removes nobody leaves the table alone: it prints "Removed!" for
   *  a name nobody holds, and nothing at all when there is no name. */
  lemma KickedIsTold(reg: seq<Entry>, listener: int, line: string)
    ensures var st := OperatorStep(reg, listener, line);
      var c := ParseOperatorLine(line);
      match KickedBy(reg, line)
      case Some(i) =>
        i < |reg| && st.reg == SwapRemove(reg, i) && !st.stop &&
        st.out == [Sent(reg[i].socket, KickNotice), Printed(RemovedNotice(reg[i].username))]
      case None =>
        (st.reg == reg || st.stop) &&
        (c.Remove? ==>
          st.reg == reg && !st.stop &&
          (RemoveTarget(c.rest).None? ==> st.out == []) &&
          (RemoveTarget(c.rest).Some? ==>
            var name := RemoveTarget(c.rest).value;
            NameFree(reg, name) && st.out == [Printed(RemovedNotice(name))]))
  {
    CommandKicks(reg, listener, ParseOperatorLine(line));
  }

  /** The same for a parsed operator command. */
  lemma CommandKicks(reg: seq<Entry>, listener: int, c: OperatorCommand)
    ensures var st := OperatorCommandStep(reg, listener, c);
      match KickTarget(reg, c)
      case Some(i) =>
        i < |reg| && st.reg == SwapRemove(reg, i) && !st.stop &&
        st.out == [Sent(reg[i].socket, KickNotice), Printed(RemovedNotice(reg[i].username))]
      case None =>
        (st.reg == reg || st.stop) &&
        (c.Remove? ==>
          st.reg == reg && !st.stop &&
          (RemoveTarget(c.rest).None? ==> st.out == []) &&
          (RemoveTarget(c.rest).Some? ==>
            var name := RemoveTarget(c.rest).value;
            NameFree(reg, name) && st.out == [Printed(RemovedNotice(name))]))
  {
    match c
    case Remove(rest) =>
    case ServerShutdown =>
    case _ =>
  }

  /** "/remove" followed by nothing but blanks removes nobody and prints
   *  nothing, because strtok finds no name. */
  lemma RemoveWithoutName(reg: seq<Entry>, listener: int, c: char, rest: string)
    requires forall i :: 0 <= i < |rest| ==> rest[i] == ' '
    ensures OperatorStep(reg, listener, "/remove" + ([c] + rest)) == OperatorOutcome(reg, [], false)
  {
    RemoveMatchesSevenCharacters(c, rest);
    FirstTokenSound(rest);
  }

  /** Shutdown tells every registered client exactly once before any socket
   *  is closed, then closes each of them and the listener, and leaves the
   *  table empty. */
  lemma ShutdownNotifiesBeforeClosing(reg: seq<Entry>, listener: int, i: nat)
    requires SocketsDistinct(reg)
    requires forall k :: 0 <= k < |reg| ==> reg[k].socket >= 0
    ensures var st := OperatorStep(reg, listener, "/shutdown");
      var n := |st.out|;
      st.stop && st.reg == [] && n == 2 * |reg| + 1 &&
      (forall k :: 0 <= k < |reg| ==> st.out[k] == Sent(reg[k].socket, ShuttingDown)) &&
      (forall k :: |reg| <= k < n - 1 ==> st.out[k] == Closed(reg[k - |reg|].socket)) &&
      st.out[n - 1] == Closed(listener) &&
      (i < |reg| ==> multiset(st.out)[Sent(reg[i].socket, ShuttingDown)] == 1)
  {
    assert OperatorStep(reg, listener, "/shutdown") == ShutdownOutcome(reg, listener) by {
      assert ParseOperatorLine("/shutdown") == ServerShutdown;
    }
    ShutdownLayout(reg, listener);
    if i < |reg| {
      ShutdownTellsOnce(reg, listener, i);
    }
  }

  /** The shutdown events in order: one notice per entry, one close per
   *  entry, then the listener's close. */
  lemma ShutdownLayout(reg: seq<Entry>, listener: int)
    requires forall k :: 0 <= k < |reg| ==> reg[k].socket >= 0
    ensures var out := ShutdownOutcome(reg, listener).out;
      var n := |out|;
      n == 2 * |reg| + 1 &&
      (forall k :: 0 <= k < |reg| ==> out[k] == Sent(reg[k].socket, ShuttingDown)) &&
      (forall k :: |reg| <= k < n - 1 ==> out[k] == Closed(reg[k - |reg|].socket)) &&
      out[n - 1] == Closed(listener)
  {
    var b := BroadcastSends(reg, ShuttingDown, -1);
    var c := CloseAll(reg);
    BroadcastAllOf(reg, ShuttingDown, -1);
    var out := b + c + [Closed(listener)];
    assert forall k :: 0 <= k < |reg| ==> out[k] == b[k];
    assert forall k :: |reg| <= k < |out| - 1 ==> out[k] == c[k - |reg|];
  }

  /** Each registered client is told of the shutdown exactly once. */
  lemma ShutdownTellsOnce(reg: seq<Entry>, listener: int, i: nat)
    requires SocketsDistinct(reg) && i < |reg| && reg[i].socket >= 0
    ensures multiset(ShutdownOutcome(reg, listener).out)[Sent(reg[i].socket, ShuttingDown)] == 1
  {
    var b := BroadcastSends(reg, ShuttingDown, -1);
    var c := CloseAll(reg);
    BroadcastExactlyOnce(reg, ShuttingDown, -1, i);
    assert multiset(b + c + [Closed(listener)]) == multiset(b) + multiset(c) + multiset{Closed(listener)};
    assert Sent(reg[i].socket, ShuttingDown) !in c;
  }

  /** When no registered socket is the sender, a broadcast is one send per
   *  entry in index order. */
  lemma {:induction false} BroadcastAllOf(reg: seq<Entry>, m: Notice, sender: int)
    requires forall k :: 0 <= k < |reg| ==> reg[k].socket != sender
    ensures var b := BroadcastSends(reg, m, sender);
      |b| == |reg| && forall k :: 0 <= k < |reg| ==> b[k] == Sent(reg[k].socket, m)
  {
    if reg != [] {
      BroadcastAllOf(reg[..|reg| - 1], m, sender);
    }
  }

  /** Unknown operator input is answered on the console only. */
  lemma UnknownStaysLocal(reg: seq<Entry>, listener: int, line: string)
    requires ParseOperatorLine(line) == Unknown
    ensures OperatorStep(reg, listener, line) == OperatorOutcome(reg, [Printed(UnknownCommand)], false)
  {
  }

  /** "/message <b>" hands on the body from offset 8, so what every client
   *  gets keeps the blank: "[SERVER]:  <b>". */
  lemma MessageKeepsBlank(reg: seq<Entry>, listener: int, b: string)
    requires forall k :: 0 <= k < |reg| ==> reg[k].socket != listener
    ensures var st := OperatorStep(reg, listener, "/message " + b);
      st.reg == reg && !st.stop && |st.out| == |reg| &&
      forall k :: 0 <= k < |reg| ==>
        st.out[k].Sent? && st.out[k].socket == reg[k].socket && Text(st.out[k].notice) == "[SERVER]:  " + b
  {
    MessageParses(b);
    assert OperatorStep(reg, listener, "/message " + b) == OperatorCommandStep(reg, listener, Message(" " + b));
    assert Text(ServerNotice(" " + b)) == "[SERVER]:  " + b;
    MessageReachesAll(reg, listener, " " + b);
  }

  /** "/message " is matched on eight characters, so the body keeps its
   *  leading blank. */
  lemma MessageParses(b: string)
    ensures ParseOperatorLine("/message " + b) == Message(" " + b)
  {
    var line := "/message " + b;
    assert line[1] == 'm' && line[..7][1] != "/remove "[..7][1] && line[..8][1] != "/private "[..8][1];
    assert line[..8] == "/message";
    assert line[8..] == " " + b;
  }

  /** A "/message" body goes to every registered client, in slot order. */
  lemma MessageReachesAll(reg: seq<Entry>, listener: int, body: string)
    requires forall k :: 0 <= k < |reg| ==> reg[k].socket != listener
    ensures var st := OperatorCommandStep(reg, listener, Message(body));
      st.reg == reg && !st.stop && |st.out| == |reg| &&
      forall k :: 0 <= k < |reg| ==> st.out[k] == Sent(reg[k].socket, ServerNotice(body))
  {
    BroadcastAllOf(reg, ServerNotice(body), listener);
  }

  /** "/remove" is matched on seven characters and the name read from
   *  offset 8, so any one character may stand in for the blank. */
  lemma RemoveMatchesSevenCharacters(c: char, rest: string)
    ensures ParseOperatorLine("/remove" + ([c] + rest)) == Remove(rest)
  {
    var line := "/remove" + ([c] + rest);
    assert line[1] == 'r' && |line| >= 8;
    assert line[..7] == "/remove";
    assert line[8..] == rest;
  }

  /** Operator "/remove <name>": the first session of that name, and only
   *  it, is told and removed; the console confirms either way. */
  lemma OperatorRemoveOutcome(reg: seq<Entry>, listener: int, name: string)
    requires name != [] && ' ' !in name
    ensures var st := OperatorStep(reg, listener, "/remove " + name);
      !st.stop &&
      (NameFree(reg, name) ==> st.reg == reg && st.out == [Printed(RemovedNotice(name))]) &&
      (!NameFree(reg, name) ==>
        var i := IndexOfName(reg, name).value;
        st.out == [Sent(reg[i].socket, KickNotice), Printed(RemovedNotice(name))] &&
        |st.reg| == |reg| - 1 && multiset(st.reg) + multiset{reg[i]} == multiset(reg))
  {
    var line := "/remove " + name;
    assert ParseOperatorLine(line) == Remove(name) by {
      assert line == "/remove" + ([' '] + name);
      RemoveMatchesSevenCharacters(' ', name);
    }
    assert RemoveTarget(name) == Some(name) by {
      FirstTokenComplete(0, name, []);
      assert Spaces(0) + (name + []) == name;
    }
    KickSpec(reg, name);
  }
}
