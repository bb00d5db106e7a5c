/** The server's shared state as the source keeps it: a fixed array of
 *  pointers to session records, the count of registered ones, the running
 *  flag, and the observable effects so far. Every method runs as one
 *  atomic step. Most are one region under clients_mutex; HandleQuit,
 *  HandleClientEnd and Shutdown join several regions and the close() calls
 *  between them. Each is proved against the value-level functions of
 *  Registry and Dispatch. */
module ChatServer {
  import opened ChatText
  import opened Registry
  import opened Dispatch

  /** client_info: one connection's record. The table and the connection's
   *  handler thread both point at it. */
  class Session {
    const socket: int
    var username: string
    var usernameSet: bool
    var removedByAdmin: bool

    /** The record the accept loop allocates for a new connection. */
    constructor (socket: int)
      ensures this.socket == socket && username == Anonymous && !usernameSet && !removedByAdmin
    {
      this.socket := socket;
      username := Anonymous;
      usernameSet := false;
      removedByAdmin := false;
    }

    /** What the table knows of this record. */
    function Row(): Entry
      reads this`username, this`usernameSet
    {
      Entry(socket, username, usernameSet)
    }
  }

  class Server {
    /** server_socket, the listening descriptor. */
    const listener: int
    /** clients[0 .. count) are the registered sessions. */
    const clients: array<Session?>
    var count: nat
    /** server_running. */
    var running: bool
    /** Everything sent, closed and printed so far, in order. */
    var trace: seq<Event>

    /** The first count slots hold records. */
    ghost predicate Filled()
      reads this`count, clients
    {
      count <= clients.Length && forall i :: 0 <= i < count ==> clients[i] != null
    }

    /** The table as a value: the rows of clients[0 .. count). */
    ghost var view: seq<Entry>

    /** view mirrors the table; the table never exceeds MAX_CLIENTS;
     *  registered sockets are non-negative, distinct and not the listener;
     *  confirmed names are unique. Distinct sockets hold because a
     *  handler's close and its remove_client form one step here; between
     *  the two, the source can register a reused descriptor twice
     *  (Dispatch.KickedEndDropsNewcomer). */
    ghost predicate Valid()
      reads this`count, this`view, clients, clients[..]`username, clients[..]`usernameSet
    {
      Filled() && clients.Length == MaxClients && count <= MaxClients && listener >= 0 &&
      |view| == count && (forall i :: 0 <= i < count ==> view[i] == clients[i].Row()) &&
      (forall i :: 0 <= i < count ==> clients[i].socket >= 0 && clients[i].socket != listener) &&
      SocketsDistinct(view) && NamesUnique(view)
    }

    /** The state main sets up before it accepts connections. */
    constructor (listener: int)
      requires listener >= 0
      ensures this.listener == listener && Valid() && view == [] && running && trace == []
    {
      this.listener := listener;
      clients := new Session?[MaxClients];
      count := 0;
      running := true;
      trace := [];
      view := [];
    }

    // ------------------------------------------------------------ lookups

    /** The scan of the routing functions for the first session named u:
     *  its slot, or count when there is none. */
    method FindName(u: string) returns (i: nat)
      requires Valid()
      ensures i <= count
      ensures IndexOfName(view, u) == if i < count then Some(i) else None
    {
      i := 0;
      while i < count && clients[i].username != u
        invariant i <= count
        invariant forall k :: 0 <= k < i ==> view[k].username != u
      {
        i := i + 1;
      }
      IndexOfNameAt(view, u, i);
    }

    /** The scan for the first session on socket s: its slot, or count. */
    method FindSocket(s: int) returns (i: nat)
      requires Valid()
      ensures i <= count
      ensures IndexOfSocket(view, s) == if i < count then Some(i) else None
    {
      i := 0;
      while i < count && clients[i].socket != s
        invariant i <= count
        invariant forall k :: 0 <= k < i ==> view[k].socket != s
      {
        i := i + 1;
      }
      IndexOfSocketAt(view, s, i);
    }

    /** is_username_unique: true exactly when no registered session,
     *  confirmed or not, is named u. */
    method IsUsernameUnique(u: string) returns (unique: bool)
      requires Valid()
      ensures unique == NameFree(view, u)
    {
      var i := 0;
      while i < count
        invariant i <= count
        invariant forall k :: 0 <= k < i ==> view[k].username != u
      {
        if clients[i].username == u {
          return false;
        }
        i := i + 1;
      }
      return true;
    }

    // ------------------------------------------------------------ removal

    /** free(clients[i]); clients[i] = clients[--client_count];
     *  clients[client_count] = NULL. */
    method DropAt(i: nat)
      requires Valid() && i < count
      modifies this`count, this`view, clients
      ensures Valid()
      ensures count == old(count) - 1 && clients[count] == null
      ensures view == SwapRemove(old(view), i)
    {
      SwapRemoveKeepsInvariants(view, i);
      count := count - 1;
      clients[i] := clients[count];
      clients[count] := null;
      view := SwapRemove(view, i);
    }

    /** remove_client: the first session on socket s leaves the table. */
    method RemoveClient(s: int)
      requires Valid()
      modifies this`count, this`view, clients
      ensures Valid()
      ensures view == RemoveBySocket(old(view), s)
    {
      ghost var before := view;
      var i := FindSocket(s);
      if i < count {
        assert RemoveBySocket(before, s) == SwapRemove(before, i);
        DropAt(i);
      }
    }

    /** admin_remove_client: the first session named u is told it was
     *  kicked, flagged as removed by the operator, and leaves the table. */
    method AdminRemoveClient(u: string)
      requires Valid()
      modifies this`count, this`view, this`trace, clients, clients[..count]`removedByAdmin
      ensures Valid()
      ensures view == Kick(old(view), u).0
      ensures trace == old(trace) + Kick(old(view), u).1
      ensures forall k :: 0 <= k < old(count) ==>
        old(clients[k]).removedByAdmin == (old(clients[k].removedByAdmin) || IndexOfName(old(view), u) == Some(k))
    {
      var i := FindName(u);
      if i < count {
        KickAt(i);
      }
    }

    /** The session in slot i is told it was kicked, flagged, and dropped. */
    method KickAt(i: nat)
      requires Valid() && i < count
      modifies this`count, this`view, this`trace, clients, clients[..count]`removedByAdmin
      ensures Valid()
      ensures view == SwapRemove(old(view), i)
      ensures trace == old(trace) + [Sent(old(view)[i].socket, KickNotice)]
      ensures forall k :: 0 <= k < old(count) ==>
        old(clients[k]).removedByAdmin == (old(clients[k].removedByAdmin) || k == i)
    {
      var victim := clients[i];
      forall k | 0 <= k < count && k != i
        ensures clients[k] != victim
      {
        assert view[k] == clients[k].Row() && view[i] == victim.Row();
      }
      trace := trace + [Sent(victim.socket, KickNotice)];
      victim.removedByAdmin := true;
      DropAt(i);
    }

    // ------------------------------------------------------------ routing

    /** broadcast_message: in slot order, m to every session whose socket is
     *  not the sender's. */
    method Broadcast(m: Notice, sender: int)
      requires Valid()
      modifies this`trace
      ensures trace == old(trace) + BroadcastSends(view, m, sender)
    {
      var i := 0;
      while i < count
        invariant i <= count
        invariant trace == old(trace) + BroadcastSends(view[..i], m, sender)
      {
        assert view[..i + 1][..i] == view[..i];
        assert view[i] == clients[i].Row();
        if clients[i].socket != sender {
          trace := trace + [Sent(clients[i].socket, m)];
        }
        i := i + 1;
      }
      assert view[..count] == view;
    }

    /** send_private_message: the first session named recipient gets the
     *  message signed with the name on the sender's socket. */
    method SendPrivate(msg: string, sender: int, recipient: string)
      requires Valid()
      modifies this`trace
      ensures trace == old(trace) + PrivateSends(view, msg, sender, recipient)
    {
      var i := FindName(recipient);
      if i < count {
        var j := FindSocket(sender);
        var senderName := if j < count then clients[j].username else "";
        trace := trace + [Sent(clients[i].socket, PrivateLine(senderName, msg))];
      }
    }

    /** send_server_private_message: the same addressing signed SERVER; a
     *  miss is reported on the console. */
    method SendServerPrivate(msg: string, recipient: string)
      requires Valid()
      modifies this`trace
      ensures trace == old(trace) + ServerPrivateSends(view, msg, recipient)
    {
      var i := FindName(recipient);
      if i < count {
        trace := trace + [Sent(clients[i].socket, ServerPrivateLine(msg))];
      } else {
        trace := trace + [Printed(NotFoundNotice(recipient))];
      }
    }

    /** The strcat loop of list_clients: the header, then every registered
     *  name on its own line. */
    method BuildList() returns (text: string)
      requires Valid()
      ensures text == ListText(view)
    {
      text := ListHeader;
      assert text == JoinLines([ListTitle] + Names(view[..0]));
      var i := 0;
      while i < count
        invariant i <= count
        invariant text == JoinLines([ListTitle] + Names(view[..i]))
      {
        ghost var lines := [ListTitle] + Names(view[..i + 1]);
        assert lines[..i + 1] == [ListTitle] + Names(view[..i]) by {
          assert view[..i + 1][..i] == view[..i];
        }
        assert lines[i + 1] == clients[i].username;
        text := text + clients[i].username + "\n";
        i := i + 1;
      }
      assert view[..count] == view;
    }

    /** list_clients: printed when the operator asks, sent otherwise. */
    method ListClients(requester: int)
      requires Valid()
      modifies this`trace
      ensures trace == old(trace) + [if requester == listener then Printed(ClientList(ListText(view))) else Sent(requester, ClientList(ListText(view)))]
    {
      var text := BuildList();
      if requester == listener {
        trace := trace + [Printed(ClientList(text))];
      } else {
        trace := trace + [Sent(requester, ClientList(text))];
      }
    }

    /** shutdown_server up to the process exit. */
    method Shutdown()
      requires Valid()
      modifies this`count, this`view, this`trace, this`running
      ensures Valid() && !running
      ensures view == ShutdownOutcome(old(view), listener).reg
      ensures trace == old(trace) + ShutdownOutcome(old(view), listener).out
    {
      ghost var v := view;
      Broadcast(ShuttingDown, -1);
      CloseClients();
      count := 0;
      view := [];
      running := false;
      trace := trace + [Closed(listener)];
      AppendAssoc(old(trace), BroadcastSends(v, ShuttingDown, -1), CloseAll(v));
      AppendAssoc(old(trace), BroadcastSends(v, ShuttingDown, -1) + CloseAll(v), [Closed(listener)]);
    }

    /** The loop of shutdown_server: every registered socket is closed, in
     *  slot order. */
    method CloseClients()
      requires Valid()
      modifies this`trace
      ensures trace == old(trace) + CloseAll(view)
    {
      var i := 0;
      while i < count
        invariant i <= count
        invariant trace == old(trace) + CloseAll(view[..i])
      {
        assert view[..i + 1][..i] == view[..i];
        assert view[i] == clients[i].Row();
        trace := trace + [Closed(clients[i].socket)];
        i := i + 1;
      }
      assert view[..count] == view;
    }

    // ------------------------------------------------------------ admission

    /** clients[client_count++] = record, for the record of a connection
     *  just accepted. */
    method Push(record: Session)
      requires Valid() && count < MaxClients
      requires record.socket >= 0 && record.socket != listener && record.socket !in Sockets(view)
      requires record.Row() == Entry(record.socket, Anonymous, false)
      modifies this`count, this`view, clients
      ensures Valid()
      ensures count == old(count) + 1 && clients[old(count)] == record
      ensures view == old(view) + [record.Row()]
    {
      AdmitKeepsInvariants(view, record.socket);
      clients[count] := record;
      count := count + 1;
      view := view + [record.Row()];
    }

    /** client_count--: the last record leaves the table. */
    method Pop()
      requires Valid() && count > 0
      modifies this`count, this`view
      ensures Valid()
      ensures count == old(count) - 1 && view == old(view)[..count]
    {
      count := count - 1;
      view := view[..count];
      assert SocketsDistinct(view) && NamesUnique(view);
    }

    /** The accepted connection s with its record allocated and its handler
     *  thread started: registered and prompted. */
    method Enrol(s: int) returns (session: Session)
      requires Valid() && count < MaxClients
      requires s >= 0 && s != listener && s !in Sockets(view)
      modifies this`count, this`view, this`trace, clients
      ensures Valid()
      ensures view == AcceptStep(old(view), s, true, true).0
      ensures trace == old(trace) + AcceptStep(old(view), s, true, true).1
      ensures fresh(session) && session.Row() == Entry(s, Anonymous, false) && !session.removedByAdmin
      ensures count > 0 && clients[count - 1] == session
    {
      session := new Session(s);
      Push(session);
      trace := trace + [Sent(s, Prompt)];
    }

    /** The accepted connection s with its record allocated but no handler
     *  thread: registered and prompted, then closed and taken back out. */
    method Abandon(s: int)
      requires Valid() && count < MaxClients
      requires s >= 0 && s != listener && s !in Sockets(view)
      modifies this`count, this`view, this`trace, clients
      ensures Valid()
      ensures view == AcceptStep(old(view), s, true, false).0
      ensures trace == old(trace) + AcceptStep(old(view), s, true, false).1
    {
      ghost var reg, t0 := view, trace;
      var record := Enrol(s);
      Withdraw(s);
      assert view == reg;
      AppendAssoc(t0, [Sent(s, Prompt)], [Closed(s)]);
    }

    /** close(new_socket); free(new_client); client_count--: the record just
     *  enrolled leaves the table again. */
    method Withdraw(s: int)
      requires Valid() && count > 0
      modifies this`count, this`view, this`trace
      ensures Valid()
      ensures count == old(count) - 1 && view == old(view)[..count]
      ensures trace == old(trace) + [Closed(s)]
    {
      trace := trace + [Closed(s)];
      Pop();
    }

    /** The accepted connection s with its record allocated: enrolled when
     *  the handler thread starts, abandoned when it does not. */
    method Register(s: int, threadStarted: bool) returns (session: Session?)
      requires Valid() && count < MaxClients
      requires s >= 0 && s != listener && s !in Sockets(view)
      modifies this`count, this`view, this`trace, clients
      ensures Valid()
      ensures view == AcceptStep(old(view), s, true, threadStarted).0
      ensures trace == old(trace) + AcceptStep(old(view), s, true, threadStarted).1
      ensures session != null <==> threadStarted
      ensures session != null ==>
        fresh(session) && session.Row() == Entry(s, Anonymous, false) && !session.removedByAdmin &&
        count > 0 && clients[count - 1] == session
    {
      if threadStarted {
        session := Enrol(s);
      } else {
        Abandon(s);
        session := null;
      }
    }

    /** One pass of main's accept loop for the new connection s, with the
     *  outcomes of malloc and pthread_create as parameters. Returns the
     *  record handed to the new handler thread, if one was started. */
    method Accept(s: int, allocOk: bool, threadStarted: bool) returns (session: Session?)
      requires Valid()
      requires s >= 0 && s != listener && s !in Sockets(view)
      modifies this`count, this`view, this`trace, clients
      ensures Valid()
      ensures view == AcceptStep(old(view), s, allocOk, threadStarted).0
      ensures trace == old(trace) + AcceptStep(old(view), s, allocOk, threadStarted).1
      ensures session != null <==> old(count) < MaxClients && allocOk && threadStarted
      ensures session != null ==>
        fresh(session) && session.Row() == Entry(s, Anonymous, false) && !session.removedByAdmin &&
        count > 0 && clients[count - 1] == session
    {
      if count < MaxClients && allocOk {
        session := Register(s, threadStarted);
      } else {
        session := null;
        trace := trace + [Closed(s)];
      }
    }

    // ------------------------------------------------------------ handlers

    /** The accepted "/username" request: the handler's own record takes
     *  the name and the confirmed flag. */
    method ConfirmName(me: Session, name: string)
      requires Valid()
      requires forall k :: 0 <= k < count && clients[k].socket == me.socket ==> clients[k] == me
      requires NameFree(view, name)
      modifies this`view, me`username, me`usernameSet
      ensures Valid()
      ensures me.Row() == Entry(me.socket, name, true)
      ensures view == Rename(old(view), me.socket, name)
    {
      ghost var before := view;
      RenameKeepsInvariants(before, me.socket, name);
      me.username := name;
      me.usernameSet := true;
      view := Rename(before, me.socket, name);
      forall k | 0 <= k < count
        ensures view[k] == clients[k].Row()
      {
        match IndexOfSocket(before, me.socket)
        case Some(j) =>
          assert clients[j] == me;
          assert clients[k] == me <==> k == j;
        case None =>
          assert before[k].socket != me.socket;
      }
    }

    /** The "/username " branch of handle_client for the requested text. */
    method HandleUsername(me: Session, requested: string)
      requires Valid()
      requires forall k :: 0 <= k < count && clients[k].socket == me.socket ==> clients[k] == me
      requires |requested| < BufferSize
      modifies this`view, this`trace, me`username, me`usernameSet
      ensures Valid()
      ensures var st := SetUsernameStep(old(view), old(me.Row()), requested);
        view == st.reg && me.Row() == st.me && trace == old(trace) + st.out
    {
      var unique := IsUsernameUnique(requested);
      if unique {
        var name := Truncate(requested, BufferSize - 1);
        assert name == requested;
        if |name| > 0 {
          AnnounceName(me, name);
        } else {
          trace := trace + [Sent(me.socket, NameInvalid)];
        }
      } else {
        trace := trace + [Sent(me.socket, NameTaken)];
      }
    }

    /** A free, non-empty name taken: the handler's session is renamed,
     *  told so, and every other session hears that it joined. */
    method AnnounceName(me: Session, name: string)
      requires Valid()
      requires forall k :: 0 <= k < count && clients[k].socket == me.socket ==> clients[k] == me
      requires NameFree(view, name) && name != [] && |name| < BufferSize
      modifies this`view, this`trace, me`username, me`usernameSet
      ensures Valid()
      ensures var st := SetUsernameStep(old(view), old(me.Row()), name);
        view == st.reg && me.Row() == st.me && trace == old(trace) + st.out
    {
      ghost var t0 := trace;
      assert Truncate(name, BufferSize - 1) == name;
      ConfirmName(me, name);
      var confirmed := [Sent(me.socket, NameSetNotice(me.username))];
      trace := trace + confirmed;
      Broadcast(JoinNotice(me.username), me.socket);
      AppendAssoc(t0, confirmed, BroadcastSends(view, JoinNotice(name), me.socket));
    }

    /** The "/private " branch of handle_client; rest follows the prefix. */
    method HandlePrivate(me: Session, rest: string)
      requires Valid()
      modifies this`trace
      ensures var st := PrivateStep(view, me.Row(), rest);
        st.reg == view && st.me == me.Row() && !st.quit && trace == old(trace) + st.out
    {
      if me.usernameSet {
        match SplitRecipient(rest) {
          case Some((recipient, body)) => SendPrivate(body, me.socket, recipient);
          case None =>
        }
      } else {
        trace := trace + [Sent(me.socket, MustSetName)];
      }
    }

    /** The "/quit" branch of handle_client. */
    method HandleQuit(me: Session)
      requires Valid()
      modifies this`count, this`view, this`trace, clients
      ensures Valid()
      ensures var st := QuitStep(old(view), me.Row());
        view == st.reg && trace == old(trace) + st.out
    {
      ghost var v := view;
      ghost var t0 := trace;
      var goodbye := [Sent(me.socket, GoodbyeNotice(me.username))];
      trace := trace + goodbye;
      Broadcast(LeftNotice(me.username), me.socket);
      trace := trace + [Closed(me.socket)];
      RemoveClient(me.socket);
      ghost var told := BroadcastSends(v, LeftNotice(me.username), me.socket);
      AppendAssoc(t0, goodbye, told);
      AppendAssoc(t0, goodbye + told, [Closed(me.socket)]);
    }

    /** The chat branch of handle_client: any other line. */
    method HandleChat(me: Session, text: string)
      requires Valid()
      modifies this`trace
      ensures var st := ChatStep(view, me.Row(), text);
        st.reg == view && st.me == me.Row() && !st.quit && trace == old(trace) + st.out
    {
      if me.usernameSet {
        Broadcast(ChatLine(me.username, text), me.socket);
      } else {
        trace := trace + [Sent(me.socket, MustSetName)];
      }
    }

    /** The branches of handle_client's receive loop, for a parsed line. */
    method HandleCommand(me: Session, command: ClientCommand) returns (quit: bool)
      requires Valid()
      requires me.socket >= 0 && me.socket != listener
      requires forall k :: 0 <= k < count && clients[k].socket == me.socket ==> clients[k] == me
      requires command.SetUsername? ==> |command.requested| < BufferSize
      modifies this`count, this`view, this`trace, clients, me`username, me`usernameSet
      ensures Valid()
      ensures var st := CommandStep(old(view), old(me.Row()), command);
        view == st.reg && me.Row() == st.me && trace == old(trace) + st.out && quit == st.quit
    {
      quit := false;
      match command {
        case SetUsername(requested) =>
          HandleUsername(me, requested);
        case Help =>
          trace := trace + [Sent(me.socket, HelpDenied)];
        case Private(rest) =>
          HandlePrivate(me, rest);
        case List =>
          ListClients(me.socket);
        case Quit =>
          HandleQuit(me);
          quit := true;
        case Shutdown =>
          trace := trace + [Sent(me.socket, ShutdownDenied)];
        case Chat(text) =>
          HandleChat(me, text);
      }
    }

    /** One pass of handle_client's receive loop: received is what recv put
     *  in the buffer (at most BUFFER_SIZE - 1 characters), me the
     *  handler's record. The chain of prefix tests is ParseClientLine. */
    method HandleClientLine(me: Session, received: string) returns (quit: bool)
      requires Valid()
      requires me.socket >= 0 && me.socket != listener
      requires forall k :: 0 <= k < count && clients[k].socket == me.socket ==> clients[k] == me
      requires |received| < BufferSize
      modifies this`count, this`view, this`trace, clients, me`username, me`usernameSet
      ensures Valid()
      ensures var st := ClientStep(old(view), old(me.Row()), CutAt(received, '\0'));
        view == st.reg && me.Row() == st.me && trace == old(trace) + st.out && quit == st.quit
    {
      var line := CutAt(received, '\0');
      var command := ParseClientLine(line);
      ClientLineRoundTrip(line);
      quit := HandleCommand(me, command);
    }

    /** The end of handle_client once recv reports the peer gone. */
    method HandleClientEnd(me: Session)
      requires Valid()
      modifies this`count, this`view, this`trace, clients
      ensures Valid()
      ensures var st := ClientEnd(old(view), me.Row(), me.removedByAdmin);
        view == st.reg && trace == old(trace) + st.out
    {
      ghost var t0 := trace;
      if !me.removedByAdmin {
        Broadcast(DisconnectNotice(me.username), me.socket);
      }
      ghost var told := trace;
      Hangup(me.socket);
      AppendAssoc(t0, told[|t0|..], [Closed(me.socket)]);
    }

    /** close(client_socket) and remove_client: the socket is closed and its
     *  entry leaves the table. */
    method Hangup(s: int)
      requires Valid()
      modifies this`count, this`view, this`trace, clients
      ensures Valid()
      ensures view == RemoveBySocket(old(view), s)
      ensures trace == old(trace) + [Closed(s)]
    {
      trace := trace + [Closed(s)];
      RemoveClient(s);
    }

    /** The "/remove " branch of handle_input. */
    method HandleRemove(command: OperatorCommand) returns (stop: bool)
      requires command.Remove?
      requires Valid()
      modifies this`count, this`view, this`trace, this`running, clients, clients[..count]`removedByAdmin
      ensures Valid()
      ensures var st := OperatorCommandStep(old(view), listener, command);
        view == st.reg && trace == old(trace) + st.out && stop == st.stop &&
        running == (old(running) && !stop)
      ensures forall k :: 0 <= k < old(count) ==>
        old(clients[k]).removedByAdmin ==
          (old(clients[k].removedByAdmin) || KickTarget(old(view), command) == Some(k))
    {
      stop := false;
      match RemoveTarget(command.rest) {
        case Some(name) =>
          ghost var t0 := trace;
          AdminRemoveClient(name);
          ghost var told := trace;
          trace := trace + [Printed(RemovedNotice(name))];
          AppendAssoc(t0, told[|t0|..], [Printed(RemovedNotice(name))]);
        case None =>
      }
    }

    /** The "/shutdown" branch of handle_input. */
    method HandleShutdown(command: OperatorCommand) returns (stop: bool)
      requires command.ServerShutdown?
      requires Valid()
      modifies this`count, this`view, this`trace, this`running, clients, clients[..count]`removedByAdmin
      ensures Valid()
      ensures var st := OperatorCommandStep(old(view), listener, command);
        view == st.reg && trace == old(trace) + st.out && stop == st.stop &&
        running == (old(running) && !stop)
      ensures forall k :: 0 <= k < old(count) ==>
        old(clients[k]).removedByAdmin ==
          (old(clients[k].removedByAdmin) || KickTarget(old(view), command) == Some(k))
    {
      Shutdown();
      stop := true;
    }

    /** The branches of handle_input that only send or print. */
    method HandleNotice(command: OperatorCommand) returns (stop: bool)
      requires !command.ServerShutdown? && !command.Remove?
      requires Valid()
      modifies this`count, this`view, this`trace, this`running, clients, clients[..count]`removedByAdmin
      ensures Valid()
      ensures var st := OperatorCommandStep(old(view), listener, command);
        view == st.reg && trace == old(trace) + st.out && stop == st.stop &&
        running == (old(running) && !stop)
      ensures forall k :: 0 <= k < old(count) ==>
        old(clients[k]).removedByAdmin ==
          (old(clients[k].removedByAdmin) || KickTarget(old(view), command) == Some(k))
    {
      Notify(command);
      stop := false;
    }

    /** What the sending and printing branches of handle_input emit. */
    method Notify(command: OperatorCommand)
      requires Valid()
      requires !command.ServerShutdown? && !command.Remove?
      modifies this`trace
      ensures var st := OperatorCommandStep(view, listener, command);
        st.reg == view && !st.stop && trace == old(trace) + st.out
    {
      match command {
        case ServerHelp =>
        case ServerList =>
          ListClients(listener);
        case ServerPrivate(rest) =>
          match SplitRecipient(rest) {
            case Some((recipient, body)) => SendServerPrivate(body, recipient);
            case None =>
          }
        case Message(body) =>
          Broadcast(ServerNotice(body), listener);
        case Unknown =>
          trace := trace + [Printed(UnknownCommand)];
      }
    }

    /** The branches of handle_input, for a parsed line. */
    method HandleOperatorCommand(command: OperatorCommand) returns (stop: bool)
      requires Valid()
      modifies this`count, this`view, this`trace, this`running, clients, clients[..count]`removedByAdmin
      ensures Valid()
      ensures var st := OperatorCommandStep(old(view), listener, command);
        view == st.reg && trace == old(trace) + st.out && stop == st.stop &&
        running == (old(running) && !stop)
      ensures forall k :: 0 <= k < old(count) ==>
        old(clients[k]).removedByAdmin ==
          (old(clients[k].removedByAdmin) || KickTarget(old(view), command) == Some(k))
    {
      if command.ServerShutdown? {
        stop := HandleShutdown(command);
      } else if command.Remove? {
        stop := HandleRemove(command);
      } else {
        stop := HandleNotice(command);
      }
    }

    /** One pass of handle_input: raw is what fgets read from the console.
     *  The chain of command tests is ParseOperatorLine. */
    method HandleOperatorLine(raw: string) returns (stop: bool)
      requires Valid()
      modifies this`count, this`view, this`trace, this`running, clients, clients[..count]`removedByAdmin
      ensures Valid()
      ensures var st := OperatorStep(old(view), listener, ConsoleLine(raw));
        view == st.reg && trace == old(trace) + st.out && stop == st.stop &&
        running == (old(running) && !stop)
      ensures forall k :: 0 <= k < old(count) ==>
        old(clients[k]).removedByAdmin ==
          (old(clients[k].removedByAdmin) || KickedBy(old(view), ConsoleLine(raw)) == Some(k))
    {
      var line := ConsoleLine(raw);
      var command := ParseOperatorLine(line);
      stop := HandleOperatorCommand(command);
    }
  }
}
