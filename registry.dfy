/** The client table as a value: the registered sessions in index order
 *  (clients[0 .. client_count)), the lookups and removals the server
 *  performs on it, and the deliveries each routing operation makes. */
module Registry {
  import opened ChatText

  /** What the table holds about one session: its socket, its name and
   *  whether the name was confirmed (username_set). */
  datatype Entry = Entry(socket: int, username: string, usernameSet: bool)

  /** An observable effect: a notice sent on a socket, a socket closed, or
   *  a notice written to the operator console. */
  datatype Event = Sent(socket: int, notice: Notice) | Closed(socket: int) | Printed(notice: Notice)

  /** The first index whose element satisfies p: the shape of every lookup
   *  loop that stops at its first hit. */
  function FirstIndex<T>(s: seq<T>, p: T -> bool): (r: Option<nat>)
    ensures r.Some? ==> r.value < |s| && p(s[r.value]) && forall j :: 0 <= j < r.value ==> !p(s[j])
    ensures r.None? ==> forall j :: 0 <= j < |s| ==> !p(s[j])
  {
    if s == [] then None
    else if p(s[0]) then Some(0)
    else match FirstIndex(s[1..], p)
      case None => None
      case Some(i) => Some(i + 1)
  }

  /** The first entry on socket s. */
  function IndexOfSocket(reg: seq<Entry>, s: int): Option<nat>
  {
    FirstIndex(reg, (e: Entry) => e.socket == s)
  }

  /** The first entry whose name is exactly u. */
  function IndexOfName(reg: seq<Entry>, u: string): Option<nat>
  {
    FirstIndex(reg, (e: Entry) => e.username == u)
  }

  /** A scan that stopped at i (or ran off the end) found the first entry on
   *  socket s. */
  lemma IndexOfSocketAt(reg: seq<Entry>, s: int, i: nat)
    requires i <= |reg| && forall k :: 0 <= k < i ==> reg[k].socket != s
    requires i < |reg| ==> reg[i].socket == s
    ensures IndexOfSocket(reg, s) == if i < |reg| then Some(i) else None
  {
  }

  /** A scan that stopped at i (or ran off the end) found the first entry
   *  named u. */
  lemma IndexOfNameAt(reg: seq<Entry>, u: string, i: nat)
    requires i <= |reg| && forall k :: 0 <= k < i ==> reg[k].username != u
    requires i < |reg| ==> reg[i].username == u
    ensures IndexOfName(reg, u) == if i < |reg| then Some(i) else None
  {
  }

  /** is_username_unique: no entry, confirmed or not, is named u. */
  predicate NameFree(reg: seq<Entry>, u: string)
  {
    forall i :: 0 <= i < |reg| ==> reg[i].username != u
  }

  function Sockets(reg: seq<Entry>): (r: seq<int>)
    ensures |r| == |reg| && forall i :: 0 <= i < |reg| ==> r[i] == reg[i].socket
  {
    seq(|reg|, i requires 0 <= i < |reg| => reg[i].socket)
  }

  function Names(reg: seq<Entry>): (r: seq<string>)
    ensures |r| == |reg| && forall i :: 0 <= i < |reg| ==> r[i] == reg[i].username
  {
    seq(|reg|, i requires 0 <= i < |reg| => reg[i].username)
  }

  /** No two registered sessions share a socket. The model keeps this
   *  because a handler's close and its remove_client form one step; the
   *  source closes first, and a descriptor reused in between is registered
   *  twice (Dispatch.KickedEndDropsNewcomer). */
  predicate SocketsDistinct(reg: seq<Entry>)
  {
    forall i, j :: 0 <= i < |reg| && 0 <= j < |reg| && i != j ==> reg[i].socket != reg[j].socket
  }

  /** No two confirmed sessions share a name. */
  predicate NamesUnique(reg: seq<Entry>)
  {
    forall i, j :: 0 <= i < |reg| && 0 <= j < |reg| && i != j && reg[i].usernameSet && reg[j].usernameSet
      ==> reg[i].username != reg[j].username
  }

  // ---------------------------------------------------------------- removal

  /** clients[i] = clients[--client_count]: the last entry fills slot i. */
  function SwapRemove<T>(s: seq<T>, i: nat): (r: seq<T>)
    requires i < |s|
    ensures |r| == |s| - 1
    ensures forall k :: 0 <= k < |r| ==> r[k] == if k == i then s[|s| - 1] else s[k]
  {
    s[i := s[|s| - 1]][..|s| - 1]
  }

  /** Swap-with-last drops exactly the element at i and keeps all others. */
  lemma SwapRemoveMultiset<T>(s: seq<T>, i: nat)
    requires i < |s|
    ensures multiset(SwapRemove(s, i)) + multiset{s[i]} == multiset(s)
  {
    if i == |s| - 1 {
      DropLastMultiset(s);
    } else {
      DropInnerMultiset(s, i);
    }
  }

  lemma DropLastMultiset<T>(s: seq<T>)
    requires s != []
    ensures multiset(SwapRemove(s, |s| - 1)) + multiset{s[|s| - 1]} == multiset(s)
  {
    var n := |s| - 1;
    assert s == s[..n] + [s[n]];
    assert SwapRemove(s, n) == s[..n];
  }

  lemma DropInnerMultiset<T>(s: seq<T>, i: nat)
    requires i < |s| - 1
    ensures multiset(SwapRemove(s, i)) + multiset{s[i]} == multiset(s)
  {
    var n := |s| - 1;
    SliceAround(s, i);
    SwapRemoveShape(s, i);
    SwapSlots(s[..i], s[i], s[i + 1..n], s[n]);
  }

  lemma SwapSlots<T>(a: seq<T>, x: T, b: seq<T>, y: T)
    ensures multiset(a + [y] + b) + multiset{x} == multiset(a + [x] + b + [y])
  {
  }

  lemma SliceAround<T>(s: seq<T>, i: nat)
    requires i < |s| - 1
    ensures s == s[..i] + [s[i]] + s[i + 1..|s| - 1] + [s[|s| - 1]]
  {
  }

  lemma SwapRemoveShape<T>(s: seq<T>, i: nat)
    requires i < |s| - 1
    ensures SwapRemove(s, i) == s[..i] + [s[|s| - 1]] + s[i + 1..|s| - 1]
  {
  }

  /** remove_client: the first entry on socket s is replaced by the last. */
  function RemoveBySocket(reg: seq<Entry>, s: int): seq<Entry>
  {
    match IndexOfSocket(reg, s)
    case Some(i) => SwapRemove(reg, i)
    case None => reg
  }

  /** remove_client removes one entry, the first on socket s, and keeps
   *  every other; without such an entry nothing changes. */
  lemma RemoveBySocketSpec(reg: seq<Entry>, s: int)
    ensures IndexOfSocket(reg, s).None? ==> RemoveBySocket(reg, s) == reg
    ensures IndexOfSocket(reg, s).Some? ==>
      var i := IndexOfSocket(reg, s).value;
      var r := RemoveBySocket(reg, s);
      reg[i].socket == s && |r| == |reg| - 1 && multiset(r) + multiset{reg[i]} == multiset(reg)
  {
    if IndexOfSocket(reg, s).Some? {
      SwapRemoveMultiset(reg, IndexOfSocket(reg, s).value);
    }
  }

  /** Swap-with-last keeps both table invariants. */
  lemma SwapRemoveKeepsInvariants(reg: seq<Entry>, i: nat)
    requires i < |reg|
    ensures SocketsDistinct(reg) ==> SocketsDistinct(SwapRemove(reg, i))
    ensures NamesUnique(reg) ==> NamesUnique(SwapRemove(reg, i))
  {
  }

  /** With distinct sockets, the removed session is gone for good. */
  lemma RemoveBySocketForgets(reg: seq<Entry>, s: int)
    requires SocketsDistinct(reg)
    ensures var r := RemoveBySocket(reg, s);
      SocketsDistinct(r) && (NamesUnique(reg) ==> NamesUnique(r)) &&
      forall k :: 0 <= k < |r| ==> r[k].socket != s
  {
    match IndexOfSocket(reg, s)
    case None =>
    case Some(i) =>
      SwapRemoveKeepsInvariants(reg, i);
      var r := SwapRemove(reg, i);
      forall k | 0 <= k < |r| ensures r[k].socket != s {
        var src := if k == i then |reg| - 1 else k;
        assert r[k] == reg[src] && src != i;
      }
  }

  // --------------------------------------------------------------- naming

  /** The accepted /username request: the session on socket s gets the
   *  name and the confirmed flag. */
  function Rename(reg: seq<Entry>, s: int, name: string): seq<Entry>
  {
    match IndexOfSocket(reg, s)
    case Some(i) => reg[i := Entry(s, name, true)]
    case None => reg
  }

  /** A name that nobody holds can be confirmed without breaking uniqueness,
   *  and renaming never touches sockets or other sessions. */
  lemma RenameKeepsInvariants(reg: seq<Entry>, s: int, name: string)
    requires NameFree(reg, name)
    ensures var r := Rename(reg, s, name);
      |r| == |reg| && Sockets(r) == Sockets(reg) &&
      (SocketsDistinct(reg) ==> SocketsDistinct(r)) &&
      (NamesUnique(reg) ==> NamesUnique(r))
  {
    var r := Rename(reg, s, name);
    assert Sockets(r) == Sockets(reg);
  }

  // ------------------------------------------------------------ admission

  /** The admission check of the accept loop: below MAX_CLIENTS the new
   *  socket is appended as an unconfirmed "Anonymous"; otherwise refused. */
  function Admit(reg: seq<Entry>, s: int): Option<seq<Entry>>
  {
    if |reg| < MaxClients then Some(reg + [Entry(s, Anonymous, false)]) else None
  }

  /** Admission never lets the table outgrow MAX_CLIENTS and keeps both
   *  invariants for a socket not already registered. */
  lemma AdmitKeepsInvariants(reg: seq<Entry>, s: int)
    requires |reg| <= MaxClients
    requires SocketsDistinct(reg) && NamesUnique(reg)
    requires forall i :: 0 <= i < |reg| ==> reg[i].socket != s
    ensures Admit(reg, s).Some? <==> |reg| < MaxClients
    ensures Admit(reg, s).Some? ==>
      var r := Admit(reg, s).value;
      |r| == |reg| + 1 <= MaxClients && SocketsDistinct(r) && NamesUnique(r) && r[..|reg|] == reg
  {
    if |reg| < MaxClients {
      var r := Admit(reg, s).value;
      assert r[..|reg|] == reg;
    }
  }

  /** A run of accepted connections, none leaving: the table afterwards and
   *  the sockets that were turned away. */
  function AdmitAll(reg: seq<Entry>, sockets: seq<int>): (seq<Entry>, seq<int>)
    decreases |sockets|
  {
    if sockets == [] then (reg, [])
    else match Admit(reg, sockets[0])
      case Some(r) => AdmitAll(r, sockets[1..])
      case None =>
        var (final, rejected) := AdmitAll(reg, sockets[1..]);
        (final, [sockets[0]] + rejected)
  }

  /** Admissions fill the table up to MAX_CLIENTS in arrival order; every
   *  later arrival is rejected and creates no entry. */
  lemma {:induction false} AdmitAllFills(reg: seq<Entry>, sockets: seq<int>)
    requires |reg| <= MaxClients
    ensures var (final, rejected) := AdmitAll(reg, sockets);
      var room := MaxClients - |reg|;
      (|sockets| <= room ==> |final| == |reg| + |sockets| && rejected == []) &&
      (|sockets| > room ==> |final| == MaxClients && rejected == sockets[room..]) &&
      final[..|reg|] == reg &&
      forall k :: |reg| <= k < |final| ==> final[k] == Entry(sockets[k - |reg|], Anonymous, false)
    decreases |sockets|
  {
    if sockets != [] {
      var rest := sockets[1..];
      if |reg| < MaxClients {
        var r := reg + [Entry(sockets[0], Anonymous, false)];
        AdmitAllFills(r, rest);
        var (final, rejected) := AdmitAll(r, rest);
        assert final[..|reg|] == final[..|r|][..|reg|];
        forall k | |reg| <= k < |final| ensures final[k] == Entry(sockets[k - |reg|], Anonymous, false) {
          if k == |reg| {
            assert final[k] == final[..|r|][k];
          } else {
            assert sockets[k - |reg|] == rest[k - |r|];
          }
        }
      } else {
        AdmitAllFills(reg, rest);
        var (final, rejected) := AdmitAll(reg, rest);
        assert rejected == rest[MaxClients - |reg|..] || |rest| <= MaxClients - |reg|;
        assert [sockets[0]] + rest == sockets;
      }
    }
  }

  // ------------------------------------------------------------- routing

  /** broadcast_message(m, sender): in index order, one send of m to every
   *  entry whose socket is not the sender's. */
  function BroadcastSends(reg: seq<Entry>, m: Notice, sender: int): (r: seq<Event>)
    ensures forall k :: 0 <= k < |r| ==> r[k].Sent? && r[k].socket != sender && r[k].notice == m
  {
    if reg == [] then []
    else
      var last := reg[|reg| - 1];
      BroadcastSends(reg[..|reg| - 1], m, sender) + (if last.socket != sender then [Sent(last.socket, m)] else [])
  }

  /** Each socket receives the broadcast as many times as it is registered,
   *  except the sender's, which receives it never. */
  lemma {:induction false} BroadcastCounts(reg: seq<Entry>, m: Notice, sender: int, x: int)
    ensures multiset(BroadcastSends(reg, m, sender))[Sent(x, m)]
      == if x == sender then 0 else multiset(Sockets(reg))[x]
  {
    if reg != [] {
      BroadcastCounts(reg[..|reg| - 1], m, sender, x);
      SendsToLast(reg, m, sender, x);
      SocketsToLast(reg, x);
    }
  }

  /** The broadcast over a table is the one over all but its last entry,
   *  plus a send to the last entry unless it is the sender. */
  lemma SendsToLast(reg: seq<Entry>, m: Notice, sender: int, x: int)
    requires reg != []
    ensures var n := |reg| - 1;
      multiset(BroadcastSends(reg, m, sender))[Sent(x, m)] ==
      multiset(BroadcastSends(reg[..n], m, sender))[Sent(x, m)] + (if reg[n].socket != sender && x == reg[n].socket then 1 else 0)
  {
    var n := |reg| - 1;
    var last := reg[n].socket;
    var tail := if last != sender then [Sent(last, m)] else [];
    assert BroadcastSends(reg, m, sender) == BroadcastSends(reg[..n], m, sender) + tail;
    CountSplit(BroadcastSends(reg[..n], m, sender), tail, Sent(x, m));
  }

  lemma SocketsToLast(reg: seq<Entry>, x: int)
    requires reg != []
    ensures var n := |reg| - 1;
      multiset(Sockets(reg))[x] == multiset(Sockets(reg[..n]))[x] + (if x == reg[n].socket then 1 else 0)
  {
    var n := |reg| - 1;
    assert Sockets(reg) == Sockets(reg[..n]) + [reg[n].socket];
    CountSplit(Sockets(reg[..n]), [reg[n].socket], x);
  }

  /** Occurrences in a concatenation add up. */
  lemma CountSplit<T>(a: seq<T>, b: seq<T>, e: T)
    ensures multiset(a + b)[e] == multiset(a)[e] + multiset(b)[e]
  {
    assert multiset(a + b) == multiset(a) + multiset(b);
  }

  /** A socket registered once is counted once. */
  lemma DistinctSocketCountsOnce(reg: seq<Entry>, i: nat)
    requires SocketsDistinct(reg) && i < |reg|
    ensures multiset(Sockets(reg))[reg[i].socket] == 1
  {
    DistinctCountsOnce(Sockets(reg), i);
  }

  /** In a sequence without repetitions every element occurs once. */
  lemma {:induction false} DistinctCountsOnce<T>(q: seq<T>, i: nat)
    requires forall a, b :: 0 <= a < |q| && 0 <= b < |q| && a != b ==> q[a] != q[b]
    requires i < |q|
    ensures multiset(q)[q[i]] == 1
  {
    var n := |q| - 1;
    var front := q[..n];
    assert multiset(q) == multiset(front) + multiset{q[n]} by {
      assert q == front + [q[n]];
    }
    if i == n {
      assert q[i] !in front;
    } else {
      DistinctCountsOnce(front, i);
    }
  }

  /** With distinct sockets every registered session other than the sender
   *  receives a broadcast exactly once. */
  lemma BroadcastExactlyOnce(reg: seq<Entry>, m: Notice, sender: int, i: nat)
    requires SocketsDistinct(reg) && i < |reg| && reg[i].socket != sender
    ensures multiset(BroadcastSends(reg, m, sender))[Sent(reg[i].socket, m)] == 1
  {
    BroadcastCounts(reg, m, sender, reg[i].socket);
    DistinctSocketCountsOnce(reg, i);
  }

  /** The name send_private_message signs with: the first entry on the
   *  sender's socket. When the sender is no longer registered the source
   *  formats an uninitialised buffer; the model signs with the empty name. */
  function SenderName(reg: seq<Entry>, sender: int): string
  {
    match IndexOfSocket(reg, sender)
    case Some(j) => reg[j].username
    case None => ""
  }

  /** send_private_message: the first entry named recipient gets the signed
   *  message; nobody else gets anything. */
  function PrivateSends(reg: seq<Entry>, msg: string, sender: int, recipient: string): seq<Event>
  {
    match IndexOfName(reg, recipient)
    case Some(i) => [Sent(reg[i].socket, PrivateLine(SenderName(reg, sender), msg))]
    case None => []
  }

  /** A private message goes to the first session of that name and to no
   *  one else; to an unknown name it goes nowhere, not even back. */
  lemma PrivateSendsSpec(reg: seq<Entry>, msg: string, sender: int, recipient: string, i: nat)
    ensures NameFree(reg, recipient) <==> PrivateSends(reg, msg, sender, recipient) == []
    ensures i < |reg| && reg[i].username == recipient && NameFree(reg[..i], recipient) ==>
      PrivateSends(reg, msg, sender, recipient) == [Sent(reg[i].socket, PrivateLine(SenderName(reg, sender), msg))]
  {
  }

  /** send_server_private_message: the same addressing with the SERVER
   *  signature; a miss only writes a line on the operator console. */
  function ServerPrivateSends(reg: seq<Entry>, msg: string, recipient: string): seq<Event>
  {
    match IndexOfName(reg, recipient)
    case Some(i) => [Sent(reg[i].socket, ServerPrivateLine(msg))]
    case None => [Printed(NotFoundNotice(recipient))]
  }

  /** A server private message goes to the first session of that name and
   *  to no one else; to an unknown name no client hears of it and the
   *  console reports the miss. */
  lemma ServerPrivateSendsSpec(reg: seq<Entry>, msg: string, recipient: string, i: nat)
    ensures NameFree(reg, recipient) ==>
      ServerPrivateSends(reg, msg, recipient) == [Printed(NotFoundNotice(recipient))]
    ensures i < |reg| && reg[i].username == recipient && NameFree(reg[..i], recipient) ==>
      ServerPrivateSends(reg, msg, recipient) == [Sent(reg[i].socket, ServerPrivateLine(msg))]
  {
  }

  /** admin_remove_client: the first entry named u is told it was kicked
   *  and removed by swap-with-last. */
  function Kick(reg: seq<Entry>, u: string): (seq<Entry>, seq<Event>)
  {
    match IndexOfName(reg, u)
    case Some(i) => (SwapRemove(reg, i), [Sent(reg[i].socket, KickNotice)])
    case None => (reg, [])
  }

  /** Only the kicked session is told; a name nobody holds changes nothing. */
  lemma KickSpec(reg: seq<Entry>, u: string)
    ensures var (r, out) := Kick(reg, u);
      (NameFree(reg, u) ==> r == reg && out == []) &&
      (!NameFree(reg, u) ==>
        var i := IndexOfName(reg, u).value;
        reg[i].username == u && out == [Sent(reg[i].socket, KickNotice)] &&
        |r| == |reg| - 1 && multiset(r) + multiset{reg[i]} == multiset(reg))
  {
    if !NameFree(reg, u) {
      SwapRemoveMultiset(reg, IndexOfName(reg, u).value);
    }
  }

  /** The text list_clients builds: a header line, then one line per entry
   *  in index order. */
  function ListText(reg: seq<Entry>): string
  {
    JoinLines([ListTitle] + Names(reg))
  }

  /** Reading the list back line by line yields the header and the names in
   *  table order, as long as no name holds a newline. */
  lemma ListTextReadsBack(reg: seq<Entry>)
    requires forall i :: 0 <= i < |reg| ==> OneLine(reg[i].username)
    ensures SplitLines(ListText(reg)) == [ListTitle] + Names(reg)
  {
    ListTitleOneLine();
    TitledLinesReadBack(ListTitle, reg);
  }

  lemma TitledLinesReadBack(title: string, reg: seq<Entry>)
    requires OneLine(title)
    requires forall i :: 0 <= i < |reg| ==> OneLine(reg[i].username)
    ensures SplitLines(JoinLines([title] + Names(reg))) == [title] + Names(reg)
  {
    var lines := [title] + Names(reg);
    assert forall i :: 1 <= i < |lines| ==> lines[i] == reg[i - 1].username;
    SplitJoinLines(lines);
  }
}
