/**
 The room of the single-room presentation server: the `SessionController`
 (client registry, instructor assignment, presentation flags and the fan-out
 of messages) and the per-client `ClientConnection` (connect, dispatch of
 inbound lines, the six command handlers).

 The websocket transport is reduced to a log of what was written to which
 connection and which connections were closed, in order.
 */
module Session {
  import opened Strings
  import opened Nicknames
  import opened Protocol

  /** The identity of one websocket connection, as the transport knows it. */
  type ConnId = nat

  /** One observable action on the transport. */
  datatype Effect = Send(to: ConnId, msg: Msg) | Close(conn: ConnId)

  /** A registry entry: `{nick, connection, instructor}`. */
  datatype Client = Client(nick: string, conn: ClientConnection, instructor: bool)

  predicate NoDup<T(==)>(s: seq<T>) {
    forall i, j :: 0 <= i < j < |s| ==> s[i] != s[j]
  }

  lemma NoDupSnoc<T>(s: seq<T>, x: T)
    requires NoDup(s) && x !in s
    ensures NoDup(s + [x])
  {
  }

  lemma NoDupInit<T>(s: seq<T>)
    requires NoDup(s) && |s| > 0
    ensures NoDup(s[..|s| - 1]) && s[|s| - 1] !in s[..|s| - 1]
  {
  }

  /** `listing` names every element of `names` exactly once. */
  ghost predicate IsListing(listing: seq<string>, names: set<string>) {
    NoDup(listing) && forall n :: n in listing <==> n in names
  }

  /** A listing is as long as the set it lists: no nick is missing or repeated. */
  lemma {:induction false} ListingSize(listing: seq<string>, names: set<string>)
    requires IsListing(listing, names)
    ensures |listing| == |names|
    decreases |listing|
  {
    if listing == [] {
      assert forall n :: n !in names;
      assert names == {};
    } else {
      var init, last := listing[..|listing| - 1], listing[|listing| - 1];
      NoDupInit(listing);
      assert listing == init + [last];
      assert IsListing(init, names - {last});
      ListingSize(init, names - {last});
    }
  }

  /** Every nick of `ns` has a registry entry. */
  predicate Registered(ns: seq<string>, clients: map<string, Client>) {
    forall i :: 0 <= i < |ns| ==> ns[i] in clients
  }

  /** Writing `m` to the connection of each nick of `ns`, in the order of `ns`. */
  function Deliver(ns: seq<string>, clients: map<string, Client>, m: Msg): (out: seq<Effect>)
    requires Registered(ns, clients)
    ensures |out| == |ns|
  {
    if ns == [] then []
    else Deliver(ns[..|ns| - 1], clients, m) + [Send(clients[ns[|ns| - 1]].conn.id, m)]
  }

  /** The i-th write goes to the connection of the i-th nick, and carries `m`. */
  lemma {:induction false} DeliverAt(ns: seq<string>, clients: map<string, Client>, m: Msg, i: nat)
    requires Registered(ns, clients) && i < |ns|
    ensures Deliver(ns, clients, m)[i] == Send(clients[ns[i]].conn.id, m)
    decreases |ns|
  {
    if i < |ns| - 1 {
      DeliverAt(ns[..|ns| - 1], clients, m, i);
    }
  }

  lemma DeliverSnoc(ns: seq<string>, n: string, clients: map<string, Client>, m: Msg)
    requires Registered(ns, clients) && n in clients
    ensures Registered(ns + [n], clients)
    ensures Deliver(ns + [n], clients, m) == Deliver(ns, clients, m) + [Send(clients[n].conn.id, m)]
  {
    assert (ns + [n])[..|ns|] == ns;
  }

  /** The nicks of `ns` whose entry is not the instructor's, in the order of `ns`. */
  function Participants(ns: seq<string>, clients: map<string, Client>): (ps: seq<string>)
    requires Registered(ns, clients)
    ensures Registered(ps, clients)
  {
    if ns == [] then []
    else
      var init, last := ns[..|ns| - 1], ns[|ns| - 1];
      var ps := Participants(init, clients);
      if clients[last].instructor then ps else ps + [last]
  }

  /** Exactly the nicks of `ns` whose entry is not the instructor's are kept. */
  lemma {:induction false} ParticipantsMembers(ns: seq<string>, clients: map<string, Client>)
    requires Registered(ns, clients)
    ensures forall n :: n in Participants(ns, clients) <==> n in ns && !clients[n].instructor
  {
    if ns != [] {
      var init, last := ns[..|ns| - 1], ns[|ns| - 1];
      assert ns == init + [last];
      ParticipantsMembers(init, clients);
    }
  }

  lemma ParticipantsSnoc(ns: seq<string>, n: string, clients: map<string, Client>)
    requires Registered(ns, clients) && n in clients
    ensures Registered(ns + [n], clients)
    ensures Participants(ns + [n], clients) ==
              Participants(ns, clients) + (if clients[n].instructor then [] else [n])
  {
    assert (ns + [n])[..|ns|] == ns;
  }

  /** Filtering keeps a duplicate-free order duplicate-free: nobody hears a broadcast twice. */
  lemma {:induction false} ParticipantsNoDup(ns: seq<string>, clients: map<string, Client>)
    requires Registered(ns, clients) && NoDup(ns)
    ensures NoDup(Participants(ns, clients))
  {
    if ns != [] {
      var init, last := ns[..|ns| - 1], ns[|ns| - 1];
      NoDupInit(ns);
      ParticipantsNoDup(init, clients);
      ParticipantsMembers(init, clients);
      if !clients[last].instructor {
        NoDupSnoc(Participants(init, clients), last);
      }
    }
  }

  /** `ns` with `x` deleted, the others keeping their order (deleting a key of a dict). */
  function Without(ns: seq<string>, x: string): (r: seq<string>)
    ensures forall n :: n in r <==> n in ns && n != x
  {
    if ns == [] then []
    else
      var init, last := ns[..|ns| - 1], ns[|ns| - 1];
      assert ns == init + [last];
      var r := Without(init, x);
      if last == x then r else r + [last]
  }

  lemma {:induction false} WithoutNoDup(ns: seq<string>, x: string)
    requires NoDup(ns)
    ensures NoDup(Without(ns, x))
  {
    if ns != [] {
      var init, last := ns[..|ns| - 1], ns[|ns| - 1];
      NoDupInit(ns);
      WithoutNoDup(init, x);
      if last != x {
        NoDupSnoc(Without(init, x), last);
      }
    }
  }

  /** Deleting `x` from a registered order leaves an order registered without `x`. */
  lemma WithoutRegistered(ns: seq<string>, x: string, clients: map<string, Client>)
    requires Registered(ns, clients)
    ensures Registered(Without(ns, x), clients - {x})
  {
    var r := Without(ns, x);
    forall i | 0 <= i < |r| ensures r[i] in clients - {x} {
      assert r[i] in r;
    }
  }

  /** Appending a fresh nick to a duplicate-free order that lists every key keeps it so. */
  lemma RegisterSnoc(ns: seq<string>, clients: map<string, Client>, n: string, c: Client)
    requires NoDup(ns) && Registered(ns, clients) && n !in clients
    ensures NoDup(ns + [n]) && Registered(ns + [n], clients[n := c])
  {
  }

  /**
   A roster broadcast reaches every nick of `ns` once, in order, and the listing it
   carries names every registered nick exactly once.
   */
  lemma RosterListsEveryNickOnce(listing: seq<string>, ns: seq<string>, clients: map<string, Client>, i: nat)
    requires IsListing(listing, clients.Keys) && Registered(ns, clients) && i < |ns|
    ensures Deliver(ns, clients, NickList(listing))[i] == Send(clients[ns[i]].conn.id, NickList(listing))
    ensures |listing| == |clients|
    ensures forall n :: n in listing <==> n in clients
  {
    ListingSize(listing, clients.Keys);
    DeliverAt(ns, clients, NickList(listing), i);
  }

  /** The network side of every connection: what was written and closed, in order. */
  class Transport {
    var log: seq<Effect>

    constructor ()
      ensures log == []
    {
      log := [];
    }

    /** `connection.write_message(msg)`. */
    method Write(to: ConnId, m: Msg)
      modifies this
      ensures log == old(log) + [Send(to, m)]
    {
      log := log + [Send(to, m)];
    }

    /** `connection.close()`. */
    method Close(c: ConnId)
      modifies this
      ensures log == old(log) + [Effect.Close(c)]
    {
      log := log + [Effect.Close(c)];
    }
  }

  class SessionController {
    const net: Transport
    /** The registry `clients`, keyed by nick. */
    var clients: map<string, Client>
    /** The iteration order of `clients`: the order in which its keys were inserted. */
    var order: seq<string>
    /** The set `nicks`, kept beside the registry. */
    var nicks: set<string>
    /** `self.instructor`: the entry registered into an empty room, kept after it leaves. */
    var instructor: Option<Client>
    var presentationStarted: bool
    var followInstructor: bool
    var lockStudentNav: bool
    var latestInstructorState: string

    /** The connections the registry refers to (a superset: entries may have gone). */
    ghost var conns: set<ClientConnection>

    /**
     The room's invariant: `nicks` mirrors the registry's keys, `order` lists each
     key once, every entry is filed under its own nick, a connection's
     `isInstructor` agrees with its entry, and any entry flagged instructor is
     the one `instructor` points at (so there is at most one).
     */
    ghost predicate Valid()
      reads this, conns`isInstructor
    {
      && nicks == clients.Keys
      && NoDup(order)
      && Registered(order, clients)
      && RolesAgree()
      && (forall n :: n in clients ==>
            && n in order
            && clients[n].nick == n
            && (clients[n].instructor ==> instructor == Some(clients[n])))
    }

    /** Each registered connection's own `isInstructor` flag agrees with its entry. */
    ghost predicate RolesAgree()
      reads this, conns`isInstructor
    {
      forall n :: n in clients ==> clients[n].conn in conns && clients[n].conn.isInstructor == clients[n].instructor
    }

    constructor (net: Transport)
      ensures Valid() && this.net == net
      ensures clients == map[] && order == [] && nicks == {} && instructor == None
      ensures !presentationStarted && followInstructor && lockStudentNav
      ensures latestInstructorState == ""
    {
      this.net := net;
      clients := map[];
      order := [];
      nicks := {};
      instructor := None;
      presentationStarted := false;
      followInstructor := true;
      lockStudentNav := true;
      latestInstructorState := "";
      conns := {};
    }

    /** At most one registered client is the instructor. */
    lemma InstructorIsUnique(a: string, b: string)
      requires Valid() && a in clients && b in clients
      requires clients[a].instructor && clients[b].instructor
      ensures a == b
    {
    }

    /** Once the instructor's entry has left the registry (even if a newcomer now holds its nick), no one is promoted. */
    lemma NoPromotion()
      requires Valid() && instructor.Some? && instructor.value !in clients.Values
      ensures forall n :: n in clients ==> !clients[n].instructor
    {
    }

    /**
     A broadcast over the registry order reaches every registered client exactly once:
     there is one position for its nick, and the message there goes to its connection.
     */
    lemma BroadcastReachesEveryClientOnce(m: Msg, n: string)
      requires Valid() && n in clients
      ensures exists i :: 0 <= i < |order| && order[i] == n &&
                Deliver(order, clients, m)[i] == Send(clients[n].conn.id, m) &&
                forall j :: 0 <= j < |order| && order[j] == n ==> j == i
    {
      var i :| 0 <= i < |order| && order[i] == n;
      DeliverAt(order, clients, m, i);
    }

    /** The filtered fan-out reaches exactly the registered connections whose `isInstructor` is false. */
    lemma ParticipantsAreTheNonInstructors()
      requires Valid()
      ensures NoDup(Participants(order, clients))
      ensures forall n :: n in Participants(order, clients) <==> n in clients && !clients[n].conn.isInstructor
    {
      ParticipantsMembers(order, clients);
      ParticipantsNoDup(order, clients);
    }

    // ---- descriptions of the state changes, shared by the methods and the handlers ----

    twostate predicate RegistryUnchanged()
      reads this
    {
      clients == old(clients) && order == old(order) && nicks == old(nicks) && instructor == old(instructor)
    }

    twostate predicate FlagsUnchanged()
      reads this
    {
      && presentationStarted == old(presentationStarted)
      && followInstructor == old(followInstructor)
      && lockStudentNav == old(lockStudentNav)
      && latestInstructorState == old(latestInstructorState)
    }

    /** Nothing about the room changed and nothing was written. */
    twostate predicate Quiet()
      reads this, net
    {
      RegistryUnchanged() && FlagsUnchanged() && net.log == old(net.log)
    }

    /** `m` was written to the one connection `to`, and nothing else changed. */
    twostate predicate Unicast(to: ConnId, m: Msg)
      reads this, net
    {
      RegistryUnchanged() && FlagsUnchanged() && net.log == old(net.log) + [Send(to, m)]
    }

    /**
     `conn` joined under `finalNick`: its entry is added at the end of the order, and it is
     the instructor exactly when the room was empty. Nothing else about the room changes.
     */
    twostate predicate Joined(conn: ClientConnection, finalNick: string)
      reads this, conn`isInstructor
    {
      && conn.isInstructor == (old(clients) == map[])
      && clients == old(clients)[finalNick := Client(finalNick, conn, conn.isInstructor)]
      && order == old(order) + [finalNick]
      && nicks == old(nicks) + {finalNick}
      && instructor == (if conn.isInstructor then Some(clients[finalNick]) else old(instructor))
      && FlagsUnchanged()
    }

    /** `m` was written to every registered connection, in registry order, and nothing else. */
    twostate predicate ToAll(m: Msg)
      reads this, net
    {
      Registered(order, clients) && net.log == old(net.log) + Deliver(order, clients, m)
    }

    /**
     `add_client(requested, conn)` returned `finalNick`: the safe nick for the request,
     registered as `conn`'s, and every client, the newcomer included, got the roster `listing`.
     */
    twostate predicate Added(requested: string, conn: ClientConnection, finalNick: string, listing: seq<string>)
      reads this, net, conn`isInstructor
    {
      && finalNick == SafeNick(requested, old(nicks))
      && Joined(conn, finalNick)
      && IsListing(listing, nicks)
      && ToAll(NickList(listing))
    }

    /**
     `remove_client(nick)`: its connection is closed first, its entry dropped, then the
     remaining clients get the roster `listing`.
     */
    twostate predicate Removed(nick: string, listing: seq<string>)
      reads this, net
    {
      && old(nick in clients)
      && clients == old(clients) - {nick}
      && order == Without(old(order), nick)
      && nicks == old(nicks) - {nick}
      && instructor == old(instructor)
      && FlagsUnchanged()
      && IsListing(listing, nicks)
      && Registered(order, clients)
      && net.log == old(net.log) + [Effect.Close(old(clients[nick].conn.id))] + Deliver(order, clients, NickList(listing))
    }

    /** `broadcast_start_presentation`: everyone loads the presentation with the current flags. */
    twostate predicate Started()
      reads this, net
    {
      && RegistryUnchanged() && Registered(order, clients)
      && presentationStarted
      && followInstructor == old(followInstructor) && lockStudentNav == old(lockStudentNav)
      && latestInstructorState == old(latestInstructorState)
      && net.log == old(net.log) + Deliver(order, clients, LoadPresentation(PresentationSource, followInstructor, lockStudentNav))
    }

    /** `broadcast_finish_presentation`: everyone is told, then both policy flags are back to true. */
    twostate predicate Finished()
      reads this, net
    {
      && RegistryUnchanged() && Registered(order, clients)
      && !presentationStarted && followInstructor && lockStudentNav
      && latestInstructorState == old(latestInstructorState)
      && net.log == old(net.log) + Deliver(order, clients, FinishPresentation)
    }

    /** `broadcast_reveal_state(text)`: exactly the non-instructor connections get `text`. */
    twostate predicate Revealed(text: string)
      reads this, net
    {
      && RegistryUnchanged() && FlagsUnchanged() && Registered(order, clients)
      && net.log == old(net.log) + Deliver(Participants(order, clients), clients, InstructorState(text))
    }

    /** The instructor's `slide_changed`: the state is overwritten and revealed if students follow. */
    twostate predicate SlideRecorded(text: string)
      reads this, net
    {
      && RegistryUnchanged() && Registered(order, clients)
      && latestInstructorState == text
      && presentationStarted == old(presentationStarted)
      && followInstructor == old(followInstructor) && lockStudentNav == old(lockStudentNav)
      && net.log == old(net.log) +
           (if followInstructor then Deliver(Participants(order, clients), clients, InstructorState(text)) else [])
    }

    /** The instructor's `lock_follow_instructor`: the flag changes, nobody is told. */
    twostate predicate FollowSet(flag: bool)
      reads this, net
    {
      && RegistryUnchanged()
      && followInstructor == flag
      && presentationStarted == old(presentationStarted) && lockStudentNav == old(lockStudentNav)
      && latestInstructorState == old(latestInstructorState)
      && net.log == old(net.log)
    }

    /** The instructor's `lock_student_nav`: the flag changes and the non-instructors are told. */
    twostate predicate NavLocked(flag: bool)
      reads this, net
    {
      && RegistryUnchanged() && Registered(order, clients)
      && lockStudentNav == flag
      && presentationStarted == old(presentationStarted) && followInstructor == old(followInstructor)
      && latestInstructorState == old(latestInstructorState)
      && net.log == old(net.log) + Deliver(Participants(order, clients), clients, LockStudentNav(flag))
    }

    // ---- operations ----

    /** `get_safe_nick`: sanitise, then append 1, 2, 3, ... while the name is taken. */
    method GetSafeNick(initialNick: string) returns (safeNick: string)
      ensures safeNick == SafeNick(initialNick, nicks)
    {
      safeNick := StripPunctuation(initialNick);
      safeNick := StripWhitespace(safeNick);
      ghost var base := safeNick;
      var i := 1;
      while safeNick in nicks
        invariant i >= 1
        invariant safeNick == Candidate(base, i - 1)
        invariant FreeIndex(base, nicks, i - 1) == FreeIndex(base, nicks, 0)
        decreases LongerTaken(base, nicks, i - 1)
      {
        LongerTakenShrinks(base, nicks, i - 1);
        safeNick := safeNick + NatToString(i);
        i := i + 1;
      }
    }

    /** The nicks in the order a walk over the set `nicks` meets them (an order Python leaves open). */
    method NickListing() returns (listing: seq<string>)
      ensures IsListing(listing, nicks)
    {
      listing := [];
      var rest := nicks;
      while rest != {}
        invariant rest <= nicks
        invariant NoDup(listing)
        invariant forall n :: n in listing <==> n in nicks && n !in rest
        decreases rest
      {
        var n :| n in rest;
        NoDupSnoc(listing, n);
        listing := listing + [n];
        rest := rest - {n};
      }
    }

    /** Write `m` to every registered connection, in registry order. */
    method SendToAll(m: Msg)
      requires Registered(order, clients)
      modifies net
      ensures net.log == old(net.log) + Deliver(order, clients, m)
    {
      var i := 0;
      while i < |order|
        invariant 0 <= i <= |order|
        invariant Registered(order[..i], clients)
        invariant net.log == old(net.log) + Deliver(order[..i], clients, m)
      {
        var c := clients[order[i]];
        net.Write(c.conn.id, m);
        DeliverSnoc(order[..i], order[i], clients, m);
        assert order[..i + 1] == order[..i] + [order[i]];
        i := i + 1;
      }
      assert order[..i] == order;
    }

    /** Write `m` to every registered connection whose `isInstructor` is false, in registry order. */
    method SendToParticipants(m: Msg)
      requires Registered(order, clients) && RolesAgree()
      modifies net
      ensures net.log == old(net.log) + Deliver(Participants(order, clients), clients, m)
    {
      var i := 0;
      ghost var reached: seq<string> := [];
      while i < |order|
        invariant 0 <= i <= |order|
        invariant Registered(order[..i], clients)
        invariant reached == Participants(order[..i], clients)
        invariant net.log == old(net.log) + Deliver(reached, clients, m)
      {
        var c := clients[order[i]];
        assert c.conn.isInstructor == c.instructor;
        assert order[..i + 1] == order[..i] + [order[i]];
        ParticipantsSnoc(order[..i], order[i], clients);
        if !c.conn.isInstructor {
          net.Write(c.conn.id, m);
          DeliverSnoc(reached, order[i], clients, m);
          reached := reached + [order[i]];
        } else {
          assert reached + [] == reached;
        }
        i := i + 1;
      }
      assert order[..i] == order;
    }

    /**
     `broadcast_nicklist`: every registered client, in registry order, gets the same
     listing of all nicks (the listing is returned so that callers can name it).
     */
    method BroadcastNicklist() returns (listing: seq<string>)
      requires Valid()
      modifies net
      ensures IsListing(listing, nicks)
      ensures ToAll(NickList(listing))
    {
      listing := NickListing();
      SendToAll(NickList(listing));
    }

    /**
     `add_client(initial_nick, conn)`: register under a fresh safe nick; the first
     client into an empty room becomes the instructor; everyone gets the roster.
     */
    method AddClient(initialNick: string, conn: ClientConnection) returns (finalNick: string, ghost listing: seq<string>)
      requires Valid() && !conn.isInstructor
      modifies this, net, conn
      ensures Valid()
      ensures Added(initialNick, conn, finalNick, listing)
      ensures conn.nick == old(conn.nick)
    {
      finalNick := GetSafeNick(initialNick);
      Enroll(finalNick, conn);
      listing := BroadcastNicklist();
    }

    /** `add_client` between choosing the nick and the roster broadcast: the role, then the entry. */
    method Enroll(finalNick: string, conn: ClientConnection)
      requires Valid() && !conn.isInstructor && finalNick !in clients
      modifies this, conn
      ensures Valid() && Joined(conn, finalNick)
      ensures conn.nick == old(conn.nick)
    {
      var client;
      if |clients| == 0 {
        client := Client(finalNick, conn, true);
        instructor := Some(client);
        conn.SetInstructor(true);
      } else {
        client := Client(finalNick, conn, false);
        assert RolesAgree();
      }
      Register(client);
    }

    /** `self.clients[final_nick] = client_obj` and `self.nicks.add(final_nick)`. */
    method Register(client: Client)
      requires Valid() && client.nick !in clients
      requires client.conn.isInstructor == client.instructor
      requires client.instructor ==> instructor == Some(client)
      modifies this
      ensures Valid()
      ensures clients == old(clients)[client.nick := client]
      ensures order == old(order) + [client.nick] && nicks == old(nicks) + {client.nick}
      ensures instructor == old(instructor) && FlagsUnchanged()
    {
      RegisterSnoc(order, clients, client.nick, client);
      clients := clients[client.nick := client];
      conns := conns + {client.conn};
      order := order + [client.nick];
      nicks := nicks + {client.nick};
    }

    /** `remove_client(nick)`; an unregistered nick raises before anything happens. */
    method RemoveClient(nick: string) returns (outcome: Outcome, ghost listing: seq<string>)
      requires Valid()
      modifies this, net
      ensures Valid()
      ensures nick !in old(clients) ==> outcome == Raised(NoSuchClient) && Quiet()
      ensures nick in old(clients) ==> outcome == Handled && Removed(nick, listing)
    {
      if nick !in clients {
        return Raised(NoSuchClient), [];
      }
      outcome := Handled;
      var c := clients[nick];
      net.Close(c.conn.id);
      Unregister(nick);
      listing := BroadcastNicklist();
    }

    /** `del(self.clients[nick])` and `self.nicks.remove(nick)`. */
    method Unregister(nick: string)
      requires Valid() && nick in clients
      modifies this
      ensures Valid()
      ensures clients == old(clients) - {nick}
      ensures order == Without(old(order), nick) && nicks == old(nicks) - {nick}
      ensures instructor == old(instructor) && FlagsUnchanged()
    {
      WithoutNoDup(order, nick);
      WithoutRegistered(order, nick, clients);
      clients := clients - {nick};
      order := Without(order, nick);
      nicks := nicks - {nick};
    }

    /** `set_instructor_state`: last write wins. */
    method SetInstructorState(stateText: string)
      requires Valid()
      modifies this
      ensures Valid() && RegistryUnchanged()
      ensures latestInstructorState == stateText
      ensures presentationStarted == old(presentationStarted)
      ensures followInstructor == old(followInstructor) && lockStudentNav == old(lockStudentNav)
    {
      latestInstructorState := stateText;
    }

    /** `get_instructor_state`. */
    function CurrentInstructorState(): string
      reads this
    {
      latestInstructorState
    }

    /** `generate_start_presentation_msg`: the presentation to load, with the current policy flags. */
    function StartPresentationMsg(): Msg
      reads this
    {
      LoadPresentation(PresentationSource, followInstructor, lockStudentNav)
    }

    /** `send_start_presentation(connection)`: catch one connection up with a running presentation. */
    method SendStartPresentation(conn: ClientConnection)
      modifies net
      ensures Unicast(conn.id, StartPresentationMsg())
    {
      net.Write(conn.id, StartPresentationMsg());
    }

    method BroadcastStartPresentation()
      requires Valid()
      modifies this, net
      ensures Valid() && Started()
    {
      SendToAll(StartPresentationMsg());
      presentationStarted := true;
    }

    method BroadcastFinishPresentation()
      requires Valid()
      modifies this, net
      ensures Valid() && Finished()
    {
      SendToAll(FinishPresentation);
      presentationStarted := false;
      followInstructor := true;
      lockStudentNav := true;
    }

    method BroadcastRevealState(stateText: string)
      requires Valid()
      modifies net
      ensures Revealed(stateText)
    {
      SendToParticipants(InstructorState(stateText));
    }

    method BroadcastLockStudentNav(lock: bool)
      requires Valid()
      modifies net
      ensures net.log == old(net.log) + Deliver(Participants(order, clients), clients, LockStudentNav(lock))
    {
      SendToParticipants(LockStudentNav(lock));
    }
  }

  /** `ClientWSConnection`: one client's websocket, bound to the room's controller. */
  class ClientConnection {
    const id: ConnId
    const sc: SessionController
    var nick: Option<string>
    var isInstructor: bool

    /** `initialize`: no nick yet, not the instructor. */
    constructor (id: ConnId, sc: SessionController)
      ensures this.id == id && this.sc == sc && nick == None && !isInstructor
    {
      this.id := id;
      this.sc := sc;
      nick := None;
      isInstructor := false;
    }

    method SetInstructor(flag: bool)
      modifies this
      ensures isInstructor == flag && nick == old(nick)
    {
      isInstructor := flag;
    }

    /**
     `open`: register under the requested nick (the roster goes to everyone),
     then send this connection its role's panel, then the presentation if it
     is already running.
     */
    method Open(requestedNick: string) returns (ghost roster: seq<string>)
      requires sc.Valid() && !isInstructor
      modifies this, sc, sc.net
      ensures sc.Valid()
      ensures nick == Some(SafeNick(requestedNick, old(sc.nicks))) && sc.Joined(this, nick.value)
      ensures IsListing(roster, sc.nicks) && Registered(sc.order, sc.clients)
      ensures sc.net.log ==
        old(sc.net.log) + Deliver(sc.order, sc.clients, NickList(roster)) +
        [Send(id, PanelContent(if isInstructor then InstructorPanel else ParticipantPanel(sc.lockStudentNav)))] +
        (if sc.presentationStarted then [Send(id, sc.StartPresentationMsg())] else [])
    {
      var finalNick;
      finalNick, roster := sc.AddClient(requestedNick, this);
      nick := Some(finalNick);
      Greet();
    }

    /** The rest of `open`: this connection's panel, then the presentation if it is running. */
    method Greet()
      modifies sc.net
      ensures sc.net.log == old(sc.net.log) +
        [Send(id, PanelContent(if isInstructor then InstructorPanel else ParticipantPanel(sc.lockStudentNav)))] +
        (if sc.presentationStarted then [Send(id, sc.StartPresentationMsg())] else [])
    {
      if isInstructor {
        sc.net.Write(id, PanelContent(InstructorPanel));
      } else {
        sc.net.Write(id, PanelContent(ParticipantPanel(sc.lockStudentNav)));
      }
      if sc.presentationStarted {
        sc.SendStartPresentation(this);
      }
    }

    /**
     `on_close`: the registration of this connection is removed; a connection that
     never got a nick, or whose nick is no longer registered, raises instead.
     */
    method OnClose() returns (outcome: Outcome, ghost roster: seq<string>)
      requires sc.Valid()
      modifies sc, sc.net
      ensures sc.Valid()
      ensures (nick.None? || nick.value !in old(sc.clients)) ==> outcome == Raised(NoSuchClient) && sc.Quiet()
      ensures nick.Some? && nick.value in old(sc.clients) ==> outcome == Handled && sc.Removed(nick.value, roster)
    {
      if nick.None? {
        return Raised(NoSuchClient), [];
      }
      outcome, roster := sc.RemoveClient(nick.value);
    }

    /** What handling `cmd` with the fields `parts` does to the room, and how it ends. */
    twostate predicate Obeyed(cmd: Command, parts: seq<string>, outcome: Outcome)
      reads this, sc, sc.net
    {
      match cmd
      case CmdStartPresentation =>
        outcome == Handled && (if isInstructor then sc.Started() else sc.Quiet())
      case CmdSlideChanged =>
        if |parts| < 2 then outcome == Raised(IndexOutOfRange) && sc.Quiet()
        else outcome == Handled && (if isInstructor then sc.SlideRecorded(parts[1]) else sc.Quiet())
      case CmdLockFollowInstructor =>
        if !isInstructor then outcome == Handled && sc.Quiet()
        else if |parts| < 2 then outcome == Raised(IndexOutOfRange) && sc.Quiet()
        else if JsonBool(parts[1]).None? then outcome == Raised(MalformedJson(parts[1])) && sc.Quiet()
        else outcome == Handled && sc.FollowSet(JsonBool(parts[1]).value)
      case CmdLockStudentNav =>
        if !isInstructor then outcome == Handled && sc.Quiet()
        else if |parts| < 2 then outcome == Raised(IndexOutOfRange) && sc.Quiet()
        else if JsonBool(parts[1]).None? then outcome == Raised(MalformedJson(parts[1])) && sc.Quiet()
        else outcome == Handled && sc.NavLocked(JsonBool(parts[1]).value)
      case CmdSyncToInstructor =>
        outcome == Handled &&
        if isInstructor then sc.Revealed(old(sc.latestInstructorState))
        else sc.Unicast(id, InstructorState(old(sc.latestInstructorState)))
      case CmdFinishPresentation =>
        outcome == Handled && (if isInstructor then sc.Finished() else sc.Quiet())
    }

    /**
     `on_message`: split the line on `|`, look up `handle_<first field>` and run
     it; an unknown command raises before anything happens. A connection that
     is not the instructor's changes nothing with any line but a sync request.
     */
    method OnMessage(message: string) returns (outcome: Outcome)
      requires sc.Valid()
      modifies sc, sc.net
      ensures sc.Valid()
      ensures CommandOf(message).None? ==>
        outcome == Raised(NoSuchAttribute(HandlerPrefix + Split(message, '|')[0])) && sc.Quiet()
      ensures CommandOf(message).Some? ==> Obeyed(CommandOf(message).value, Split(message, '|'), outcome)
      ensures !isInstructor && CommandOf(message) != Some(CmdSyncToInstructor) ==> sc.Quiet()
    {
      var parts := Split(message, '|');
      var attr := HandlerPrefix + parts[0];
      match HandlerOf(attr) {
        case None =>
          outcome := Raised(NoSuchAttribute(attr));
        case Some(cmd) =>
          match cmd {
            case CmdStartPresentation => outcome := HandleStartPresentation(parts);
            case CmdSlideChanged => outcome := HandleSlideChanged(parts);
            case CmdLockFollowInstructor => outcome := HandleLockFollowInstructor(parts);
            case CmdLockStudentNav => outcome := HandleLockStudentNav(parts);
            case CmdSyncToInstructor => outcome := HandleSyncToInstructor(parts);
            case CmdFinishPresentation => outcome := HandleFinishPresentation(parts);
          }
      }
    }

    method HandleStartPresentation(parts: seq<string>) returns (outcome: Outcome)
      requires sc.Valid()
      modifies sc, sc.net
      ensures sc.Valid() && Obeyed(CmdStartPresentation, parts, outcome)
    {
      outcome := Handled;
      if !isInstructor {
        return;
      }
      sc.BroadcastStartPresentation();
    }

    method HandleSlideChanged(parts: seq<string>) returns (outcome: Outcome)
      requires sc.Valid()
      modifies sc, sc.net
      ensures sc.Valid() && Obeyed(CmdSlideChanged, parts, outcome)
    {
      if |parts| < 2 {
        return Raised(IndexOutOfRange);
      }
      var stateText := parts[1];
      if isInstructor {
        sc.SetInstructorState(stateText);
        if sc.followInstructor {
          sc.BroadcastRevealState(stateText);
        }
      }
      outcome := Handled;
    }

    method HandleLockFollowInstructor(parts: seq<string>) returns (outcome: Outcome)
      requires sc.Valid()
      modifies sc, sc.net
      ensures sc.Valid() && Obeyed(CmdLockFollowInstructor, parts, outcome)
    {
      if !isInstructor {
        return Handled;
      }
      if |parts| < 2 {
        return Raised(IndexOutOfRange);
      }
      var lock := JsonBool(parts[1]);
      if lock.None? {
        return Raised(MalformedJson(parts[1]));
      }
      sc.followInstructor := lock.value;
      outcome := Handled;
    }

    method HandleLockStudentNav(parts: seq<string>) returns (outcome: Outcome)
      requires sc.Valid()
      modifies sc, sc.net
      ensures sc.Valid() && Obeyed(CmdLockStudentNav, parts, outcome)
    {
      if !isInstructor {
        return Handled;
      }
      if |parts| < 2 {
        return Raised(IndexOutOfRange);
      }
      var lock := JsonBool(parts[1]);
      if lock.None? {
        return Raised(MalformedJson(parts[1]));
      }
      sc.lockStudentNav := lock.value;
      sc.BroadcastLockStudentNav(lock.value);
      outcome := Handled;
    }

    method HandleSyncToInstructor(parts: seq<string>) returns (outcome: Outcome)
      requires sc.Valid()
      modifies sc, sc.net
      ensures sc.Valid() && Obeyed(CmdSyncToInstructor, parts, outcome)
    {
      var stateText := sc.CurrentInstructorState();
      if isInstructor {
        sc.BroadcastRevealState(stateText);
      } else {
        sc.net.Write(id, InstructorState(stateText));
      }
      outcome := Handled;
    }

    method HandleFinishPresentation(parts: seq<string>) returns (outcome: Outcome)
      requires sc.Valid()
      modifies sc, sc.net
      ensures sc.Valid() && Obeyed(CmdFinishPresentation, parts, outcome)
    {
      outcome := Handled;
      if !isInstructor {
        return;
      }
      sc.BroadcastFinishPresentation();
    }
  }
}
