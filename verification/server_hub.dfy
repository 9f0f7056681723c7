/**
 backend/server.go: the earlier revision of the hub, inlined in
 `Server.Run`, and the registration round trip of `handleConnections`.
 */
module ServerHub {
  import opened Wrappers
  import opened Messages
  import opened Registry

  const MaxClientsPerAddr: int := 5
  const TooManyClients: string := "too many clients with IP"

  /** The `clients` and `rateLimits` locals of `Run`, counts only. */
  datatype Hub = Hub(clients: set<Client>, limits: map<Addr, int>)

  function Empty(): Hub {
    Hub({}, map[])
  }

  /** The answer on the registration's reply channel, if one is ever sent. */
  datatype Reply = NoReply | Replied(err: Option<string>)

  datatype RegisterResult = RegisterResult(next: Hub, reply: Reply)

  /**
   The `register` case: an unseen address gets an entry with count 1, the
   client is not made live and no reply is sent; at five counted
   registrations the reply is an error; otherwise the client is counted, made
   live, and told nil.
   */
  function Register(h: Hub, c: Client): (r: RegisterResult)
    ensures c.addr !in h.limits ==>
              r == RegisterResult(Hub(h.clients, h.limits[c.addr := 1]), NoReply)
    ensures c.addr in h.limits && h.limits[c.addr] >= MaxClientsPerAddr ==>
              r == RegisterResult(h, Replied(Some(TooManyClients)))
    ensures c.addr in h.limits && h.limits[c.addr] < MaxClientsPerAddr ==>
              && r.reply == Replied(None)
              && r.next.clients == h.clients + {c}
              && r.next.limits == h.limits[c.addr := h.limits[c.addr] + 1]
  {
    if c.addr !in h.limits then
      RegisterResult(Hub(h.clients, h.limits[c.addr := 1]), NoReply)
    else if h.limits[c.addr] >= MaxClientsPerAddr then
      RegisterResult(h, Replied(Some(TooManyClients)))
    else
      RegisterResult(Hub(h.clients + {c}, h.limits[c.addr := h.limits[c.addr] + 1]), Replied(None))
  }

  /**
   The `unregister` case: no effect for a client that is not live; otherwise
   the client leaves, its address count drops by one and the entry goes at
   zero or below. The entry must exist, since the source dereferences it.
   */
  function Unregister(h: Hub, c: Client): (r: Hub)
    requires c in h.clients ==> c.addr in h.limits
    ensures c !in h.clients ==> r == h
    ensures c in h.clients ==> r.clients == h.clients - {c}
    ensures c in h.clients ==>
              && (c.addr in r.limits <==> h.limits[c.addr] > 1)
              && (c.addr in r.limits ==> r.limits[c.addr] == h.limits[c.addr] - 1)
    ensures forall a :: a != c.addr ==> (a in r.limits <==> a in h.limits)
    ensures forall a :: a != c.addr && a in r.limits ==> r.limits[a] == h.limits[a]
  {
    if c !in h.clients then h
    else Hub(h.clients - {c}, Decrement(h.limits, c.addr))
  }

  datatype Effects = Effects(storeWrite: Option<UpdatedColor>, sent: set<Delivery<Client, Frame>>)

  datatype BroadcastResult = BroadcastResult(next: Hub, effects: Effects)

  /**
   The `broadcast` case: a denied update only tells the source; a failed
   Redis write ends the case; otherwise every live client is sent the update
   with the live count taken before the fan-out, and each client whose write
   fails is closed and dropped from the live set while its address count is
   left as it was.
   */
  function Broadcast(h: Hub, src: Client, msg: IncomingMessage, allow: bool, storeOk: bool, failures: set<Client>)
    : (r: BroadcastResult)
    requires src.addr in h.limits
    ensures !allow ==> r == BroadcastResult(h, Effects(None, {Delivery(src, Text(RateLimitExceeded))}))
    ensures allow ==> r.effects.storeWrite == Some(msg.data)
    ensures allow && !storeOk ==> r.next == h && r.effects.sent == {}
    ensures allow && storeOk ==>
              && r.next.clients == h.clients - failures
              && r.next.limits == h.limits
              && forall d :: d in r.effects.sent <==>
                   && d.to in h.clients && d.to !in failures
                   && d.frame == Messages.Broadcast(OutgoingMessage("update", msg.data, |h.clients|))
  {
    if !allow then
      BroadcastResult(h, Effects(None, {Delivery(src, Text(RateLimitExceeded))}))
    else if !storeOk then
      BroadcastResult(h, Effects(Some(msg.data), {}))
    else
      var frame := Messages.Broadcast(OutgoingMessage("update", msg.data, |h.clients|));
      var sent := set c | c in h.clients && c !in failures :: Delivery(c, frame);
      BroadcastResult(Hub(h.clients - failures, h.limits), Effects(Some(msg.data), sent))
  }

  /**
   The `numclients` case: the number of live clients, which under the
   invariant below is at most four per address with an entry.
   */
  function Num(h: Hub): (n: nat)
    ensures n == |h.clients|
    ensures Valid(h) ==> n <= (MaxClientsPerAddr - 1) * |h.limits.Keys|
  {
    if Valid(h) then
      SpreadBound(h.clients, h.limits.Keys, MaxClientsPerAddr - 1);
      |h.clients|
    else |h.clients|
  }

  /**
   The invariant this revision keeps: every live client's address has an
   entry, counting at least one more than its live clients and at most five.
   Fan-out failures make the count exceed the live clients for good.
   */
  predicate Valid(h: Hub) {
    && (forall c :: c in h.clients ==> c.addr in h.limits)
    && (forall a :: a in h.limits ==> 1 + |AtAddr(h.clients, a)| <= h.limits[a] <= MaxClientsPerAddr)
  }

  lemma RegisterValid(h: Hub, c: Client)
    requires Valid(h)
    requires c !in h.clients
    ensures Valid(Register(h, c).next)
  {
    var n := Register(h, c).next;
    if c.addr !in h.limits {
      assert AtAddr(h.clients, c.addr) == {};
    } else if h.limits[c.addr] < MaxClientsPerAddr {
      forall a | a in n.limits ensures 1 + |AtAddr(n.clients, a)| <= n.limits[a] <= MaxClientsPerAddr {
        AtAddrInsert(h.clients, c, a);
      }
    }
  }

  lemma UnregisterValid(h: Hub, c: Client)
    requires Valid(h)
    ensures Valid(Unregister(h, c))
    ensures Unregister(h, c).limits.Keys == h.limits.Keys
  {
    if c in h.clients {
      var n := Unregister(h, c);
      assert c in AtAddr(h.clients, c.addr);
      forall a | a in n.limits ensures 1 + |AtAddr(n.clients, a)| <= n.limits[a] <= MaxClientsPerAddr {
        AtAddrDelete(h.clients, c, a);
      }
    }
  }

  lemma BroadcastValid(h: Hub, src: Client, msg: IncomingMessage, allow: bool, storeOk: bool, failures: set<Client>)
    requires Valid(h)
    requires src.addr in h.limits
    ensures Valid(Broadcast(h, src, msg, allow, storeOk, failures).next)
  {
    var n := Broadcast(h, src, msg, allow, storeOk, failures).next;
    forall a | a in n.limits ensures 1 + |AtAddr(n.clients, a)| <= n.limits[a] {
      AtAddrMono(n.clients, h.clients, a);
    }
  }

  /**
   A client dropped by a failed fan-out write keeps its registration slot:
   unregistering it later changes nothing, so its address count stays.
   */
  lemma FailedClientKeepsSlot(h: Hub, src: Client, msg: IncomingMessage, storeOk: bool, failures: set<Client>, c: Client)
    requires src.addr in h.limits
    requires storeOk && c in h.clients && c in failures && c.addr in h.limits
    ensures var n := Broadcast(h, src, msg, true, storeOk, failures).next;
            && c !in n.clients
            && Unregister(n, c) == n
            && n.limits[c.addr] == h.limits[c.addr]
  {
  }

  /**
   A concrete run: address "a" has its uncounted first registration and four
   live clients; all four fail one fan-out, after which no client from "a"
   is live yet a new registration from "a" is refused.
   */
  lemma LeakedSlotsRefuseRegistration()
    ensures var live := {Client(1, "a"), Client(2, "a"), Client(3, "a"), Client(4, "a")};
            var h := Hub(live, map["a" := 5]);
            var n := Broadcast(h, Client(1, "a"), IncomingMessage("update", UpdatedColor(0, "1")), true, true, live).next;
            && AtAddr(n.clients, "a") == {}
            && Register(n, Client(5, "a")).reply == Replied(Some(TooManyClients))
  {
  }

  /** What `handleConnections` does with a registration's answer. */
  datatype Admission =
    | WaitsForever  // no reply is ever sent on `regrsp`
    | Refused       // "client limit exceeded" is written and the socket closed
    | Admitted      // the connection goes on to the initial snapshot

  /**
   The registration round trip: the hub step and what the connecting
   goroutine then does. The first connection from an address waits on its
   reply channel for good.
   */
  function Handshake(h: Hub, c: Client): (r: (Hub, Admission))
    ensures r.0 == Register(h, c).next
    ensures r.1 == WaitsForever <==> c.addr !in h.limits
    ensures r.1 == Refused <==> c.addr in h.limits && h.limits[c.addr] >= MaxClientsPerAddr
    ensures r.1 == Admitted <==> c.addr in h.limits && h.limits[c.addr] < MaxClientsPerAddr
    ensures r.1 == Admitted ==> c in r.0.clients
    ensures r.1 != Admitted ==> r.0.clients == h.clients
  {
    var reg := Register(h, c);
    var outcome := match reg.reply
      case NoReply => WaitsForever
      case Replied(Some(_)) => Refused
      case Replied(None) => Admitted;
    (reg.next, outcome)
  }
}
