/**
 backend/client.go: `clientManager`, the hub actor that owns the live client
 set and the per-address entries, and serves one request at a time.
 */
module ClientManager {
  import opened Wrappers
  import opened Messages
  import opened Registry

  /** At most this many registrations are counted per address. */
  const MaxClientsPerAddr: int := 5

  const TooManyClients: string := "too many clients with IP"
  const ManagerExited: string := "client manager has exited"

  /**
   `clients` is the live set; `limits` maps an address to the `clients`
   field of its `rateLimitData`.
   */
  datatype Manager = Manager(clients: set<Client>, limits: map<Addr, int>)

  function Empty(): Manager {
    Manager({}, map[])
  }

  datatype AddResult = AddResult(next: Manager, err: Option<string>)

  /**
   `add`: the first registration from an address creates its entry with
   count 1 and succeeds without making the client live; a sixth counted
   registration is refused; any other is counted and made live.
   */
  function Add(m: Manager, c: Client): (r: AddResult)
    ensures c.addr !in m.limits ==>
              && r.err.None?
              && r.next.clients == m.clients
              && r.next.limits == m.limits[c.addr := 1]
    ensures c.addr in m.limits && m.limits[c.addr] >= MaxClientsPerAddr ==>
              r == AddResult(m, Some(TooManyClients))
    ensures c.addr in m.limits && m.limits[c.addr] < MaxClientsPerAddr ==>
              && r.err.None?
              && r.next.clients == m.clients + {c}
              && r.next.limits == m.limits[c.addr := m.limits[c.addr] + 1]
  {
    if c.addr !in m.limits then
      AddResult(Manager(m.clients, m.limits[c.addr := 1]), None)
    else if m.limits[c.addr] >= MaxClientsPerAddr then
      AddResult(m, Some(TooManyClients))
    else
      AddResult(Manager(m.clients + {c}, m.limits[c.addr := m.limits[c.addr] + 1]), None)
  }

  /**
   `remove`: nothing happens for a client that is not live; a live client
   leaves the set and its address count goes down by one, the entry going
   when the count reaches zero or below. The entry must exist, since the
   source dereferences it.
   */
  function Remove(m: Manager, c: Client): (r: Manager)
    requires c in m.clients ==> c.addr in m.limits
    ensures c !in m.clients ==> r == m
    ensures c in m.clients ==> r.clients == m.clients - {c}
    ensures c in m.clients ==>
              && (c.addr in r.limits <==> m.limits[c.addr] > 1)
              && (c.addr in r.limits ==> r.limits[c.addr] == m.limits[c.addr] - 1)
    ensures forall a :: a != c.addr ==> (a in r.limits <==> a in m.limits)
    ensures forall a :: a != c.addr && a in r.limits ==> r.limits[a] == m.limits[a]
  {
    if c !in m.clients then m
    else Manager(m.clients - {c}, Decrement(m.limits, c.addr))
  }

  /** Removing a client twice is removing it once. */
  lemma RemoveIdempotent(m: Manager, c: Client)
    requires c in m.clients ==> c.addr in m.limits
    ensures Remove(Remove(m, c), c) == Remove(m, c)
  {
  }

  /**
   The clients whose socket write fails during a fan-out, in the order the
   fan-out meets them: each is live and met once, and removing them one by one
   finds each one's address entry.
   */
  predicate FanOutFailures(m: Manager, failures: seq<Client>) {
    && NoDuplicates(failures)
    && Elems(failures) <= m.clients
    && CanDrop(m.limits, Elems(failures))
  }

  /** The fan-out's `cm.remove(client)` for each failed client, in order. */
  function RemoveAll(m: Manager, failures: seq<Client>): (r: Manager)
    requires FanOutFailures(m, failures)
    ensures r.clients == m.clients - Elems(failures)
    ensures r.limits == DropCounts(m.limits, Elems(failures))
    decreases |failures|
  {
    if |failures| == 0 then
      assert DropCounts(m.limits, {}) == m.limits;
      m
    else
      var c, rest := failures[0], failures[1..];
      ElemsCons(failures);
      assert c !in Elems(rest) by {
        forall i | 0 <= i < |rest| ensures rest[i] != c { assert rest[i] == failures[i + 1]; }
      }
      assert Elems(failures) == Elems(rest) + {c};
      CanDropStep(m.limits, c, Elems(rest));
      DropCountsStep(m.limits, c, Elems(rest));
      var next := Remove(m, c);
      assert NoDuplicates(rest) by {
        forall i, j | 0 <= i < j < |rest| ensures rest[i] != rest[j] {
          assert rest[i] == failures[i + 1] && rest[j] == failures[j + 1];
        }
      }
      RemoveAll(next, rest)
  }

  /**
   What a broadcast did outside the manager: the Redis `SETRANGE` it issued
   (if any) and the frames it delivered.
   */
  datatype Effects = Effects(storeWrite: Option<UpdatedColor>, sent: set<Delivery<Client, Frame>>)

  datatype SendResult = SendResult(next: Manager, effects: Effects)

  /** The frame a successful broadcast fans out. */
  function UpdateFrame(data: UpdatedColor, clientCount: int): Frame {
    Broadcast(OutgoingMessage("update", data, clientCount))
  }

  /**
   `send`: `allow` is the source address's limiter answer, `storeOk` the
   outcome of the Redis write and `failures` the live clients whose write
   fails. A denied update only tells the source; a failed store write stops
   before the fan-out; otherwise every live client is sent the update with the
   live count taken before the fan-out, and the failed ones are removed.
   */
  function Send(m: Manager, src: Client, msg: IncomingMessage, allow: bool, storeOk: bool, failures: seq<Client>)
    : (r: SendResult)
    requires src.addr in m.limits
    requires FanOutFailures(m, failures)
    ensures !allow ==> r == SendResult(m, Effects(None, {Delivery(src, Text(RateLimitExceeded))}))
    ensures allow ==> r.effects.storeWrite == Some(msg.data)
    ensures allow && !storeOk ==> r.next == m && r.effects.sent == {}
    ensures allow && storeOk ==>
              && r.next.clients == m.clients - Elems(failures)
              && r.next.limits == DropCounts(m.limits, Elems(failures))
              && forall d :: d in r.effects.sent <==>
                   && d.to in m.clients && d.to !in Elems(failures)
                   && d.frame == UpdateFrame(msg.data, |m.clients|)
  {
    if !allow then
      SendResult(m, Effects(None, {Delivery(src, Text(RateLimitExceeded))}))
    else if !storeOk then
      SendResult(m, Effects(Some(msg.data), {}))
    else
      var frame := UpdateFrame(msg.data, |m.clients|);
      var sent := set c | c in m.clients && c !in Elems(failures) :: Delivery(c, frame);
      SendResult(RemoveAll(m, failures), Effects(Some(msg.data), sent))
  }

  /**
   The manager's bookkeeping invariant: every live client's address has an
   entry, and each entry counts one more than its live clients (the first,
   never-live registration) and at most five.
   */
  predicate Valid(m: Manager) {
    && (forall c :: c in m.clients ==> c.addr in m.limits)
    && (forall a :: a in m.limits ==> m.limits[a] == 1 + |AtAddr(m.clients, a)| <= MaxClientsPerAddr)
  }

  lemma EmptyValid()
    ensures Valid(Empty())
  {
  }

  /** A registration keeps the invariant when the client is a new connection. */
  lemma AddValid(m: Manager, c: Client)
    requires Valid(m)
    requires c !in m.clients
    ensures Valid(Add(m, c).next)
  {
    var n := Add(m, c).next;
    if c.addr !in m.limits {
      assert AtAddr(m.clients, c.addr) == {};
    } else if m.limits[c.addr] < MaxClientsPerAddr {
      forall a | a in n.limits ensures n.limits[a] == 1 + |AtAddr(n.clients, a)| <= MaxClientsPerAddr {
        AtAddrInsert(m.clients, c, a);
      }
    }
  }

  /** A removal keeps the invariant, and never deletes an address entry. */
  lemma RemoveValid(m: Manager, c: Client)
    requires Valid(m)
    ensures Valid(Remove(m, c))
    ensures Remove(m, c).limits.Keys == m.limits.Keys
  {
    if c in m.clients {
      var n := Remove(m, c);
      assert c in AtAddr(m.clients, c.addr);
      forall a | a in n.limits ensures n.limits[a] == 1 + |AtAddr(n.clients, a)| <= MaxClientsPerAddr {
        AtAddrDelete(m.clients, c, a);
      }
    }
  }

  /** Under the invariant any set of live clients can fail during a fan-out. */
  lemma ValidCanDrop(m: Manager, failures: seq<Client>)
    requires Valid(m)
    requires NoDuplicates(failures) && Elems(failures) <= m.clients
    ensures FanOutFailures(m, failures)
  {
    forall c | c in Elems(failures) ensures m.limits[c.addr] >= |AtAddr(Elems(failures), c.addr)| {
      AtAddrMono(Elems(failures), m.clients, c.addr);
    }
  }

  /** A broadcast keeps the invariant, and never deletes an address entry. */
  lemma SendValid(m: Manager, src: Client, msg: IncomingMessage, allow: bool, storeOk: bool, failures: seq<Client>)
    requires Valid(m)
    requires src.addr in m.limits
    requires NoDuplicates(failures) && Elems(failures) <= m.clients
    ensures FanOutFailures(m, failures)
    ensures Valid(Send(m, src, msg, allow, storeOk, failures).next)
    ensures Send(m, src, msg, allow, storeOk, failures).next.limits.Keys == m.limits.Keys
  {
    ValidCanDrop(m, failures);
    var n := Send(m, src, msg, allow, storeOk, failures).next;
    if allow && storeOk {
      var dead := Elems(failures);
      forall a | a in m.limits
        ensures a in n.limits && n.limits[a] == 1 + |AtAddr(n.clients, a)| <= MaxClientsPerAddr
      {
        AtAddrMono(dead, m.clients, a);
        AtAddrDifference(m.clients, dead, a);
      }
    }
  }

  /** Under the invariant no address ever has more than four live clients. */
  lemma ValidBound(m: Manager, a: Addr)
    requires Valid(m)
    ensures |AtAddr(m.clients, a)| <= MaxClientsPerAddr - 1
  {
    if AtAddr(m.clients, a) != {} {
      var c :| c in AtAddr(m.clients, a);
      assert a in m.limits;
    }
  }

  /** Under the invariant the live count is at most four per address with an entry. */
  lemma LiveTotalBound(m: Manager)
    requires Valid(m)
    ensures |m.clients| <= (MaxClientsPerAddr - 1) * |m.limits.Keys|
  {
    forall a | a in m.limits.Keys ensures |AtAddr(m.clients, a)| <= MaxClientsPerAddr - 1 {
      ValidBound(m, a);
    }
    SpreadBound(m.clients, m.limits.Keys, MaxClientsPerAddr - 1);
  }

  /** The first client from an address is counted but never made live. */
  lemma FirstClientNeverLive(m: Manager, c: Client)
    requires Valid(m)
    requires c.addr !in m.limits
    ensures Add(m, c).next.limits[c.addr] == 1
    ensures c !in Add(m, c).next.clients
  {
    assert c !in m.clients;
  }

  /** One request the hub's `Run` loop selects, with its oracle outcomes. */
  datatype Request =
    | RegisterReq(client: Client)
    | UnregisterReq(client: Client)
    | BroadcastReq(src: Client, msg: IncomingMessage, allow: bool, storeOk: bool, failures: seq<Client>)
    | NumReq

  /**
   What a well-behaved caller submits: a registration is a new connection, a
   broadcast comes from an address with an entry, and the failing clients are
   live and distinct.
   */
  predicate Admissible(m: Manager, q: Request) {
    match q
    case RegisterReq(c) => c !in m.clients
    case UnregisterReq(_) => true
    case BroadcastReq(src, _, _, _, failures) =>
      src.addr in m.limits && NoDuplicates(failures) && Elems(failures) <= m.clients
    case NumReq => true
  }

  /** The manager after one request of the `Run` loop. */
  function Step(m: Manager, q: Request): (r: Manager)
    requires Valid(m) && Admissible(m, q)
    ensures Valid(r)
  {
    match q
    case RegisterReq(c) => AddValid(m, c); Add(m, c).next
    case UnregisterReq(c) => RemoveValid(m, c); Remove(m, c)
    case BroadcastReq(src, msg, allow, storeOk, failures) =>
      SendValid(m, src, msg, allow, storeOk, failures);
      Send(m, src, msg, allow, storeOk, failures).next
    case NumReq => m
  }

  /**
   The manager after a sequence of requests, or `None` when some request was
   not admissible in the state it met.
   */
  function Replay(m: Manager, qs: seq<Request>): (r: Option<Manager>)
    requires Valid(m)
    ensures r.Some? ==> Valid(r.value)
    decreases |qs|
  {
    if |qs| == 0 then Some(m)
    else if !Admissible(m, qs[0]) then None
    else Replay(Step(m, qs[0]), qs[1..])
  }

  /**
   Every manager reachable from the empty one keeps one extra count per
   address entry and at most four live clients per address.
   */
  lemma ReachableBounded(qs: seq<Request>, a: Addr)
    requires Replay(Empty(), qs).Some?
    ensures var m := Replay(Empty(), qs).value;
            && |AtAddr(m.clients, a)| <= MaxClientsPerAddr - 1
            && (a in m.limits ==> m.limits[a] == 1 + |AtAddr(m.clients, a)|)
  {
    EmptyValid();
    ValidBound(Replay(Empty(), qs).value, a);
  }

  /**
   Whether `Run` has not been called yet (with the context still live, or
   already cancelled), is serving, or has returned.
   */
  datatype Phase = Created | Cancelled | Running | Exited

  datatype Hub = Hub(phase: Phase, mgr: Manager)

  /**
   The result of a call on the hub's public API: it returns, or it blocks
   because nothing serves the request channel yet.
   */
  datatype Call<T> = Returns(hub: Hub, value: T) | Blocks

  function NewHub(): Hub {
    Hub(Created, Empty())
  }

  /**
   `Run`: the first call serves, or returns at once (closing `done`) when the
   context is already cancelled; a second call, even after exit, panics
   (`None`).
   */
  function Run(h: Hub): (r: Option<Hub>)
    ensures r.Some? <==> h.phase == Created || h.phase == Cancelled
    ensures h.phase == Created ==> r == Some(Hub(Running, h.mgr))
    ensures h.phase == Cancelled ==> r == Some(Hub(Exited, h.mgr))
  {
    match h.phase
    case Created => Some(Hub(Running, h.mgr))
    case Cancelled => Some(Hub(Exited, h.mgr))
    case _ => None
  }

  /**
   Cancelling the context makes a running manager return and close `done`;
   before `Run` the cancellation is remembered by the context.
   */
  function Cancel(h: Hub): (r: Hub)
    ensures r.mgr == h.mgr
    ensures h.phase == Created ==> r.phase == Cancelled
    ensures h.phase == Running ==> r.phase == Exited
    ensures h.phase == Cancelled || h.phase == Exited ==> r == h
  {
    match h.phase
    case Created => Hub(Cancelled, h.mgr)
    case Running => Hub(Exited, h.mgr)
    case _ => h
  }

  /** `Register`: refused once the manager has exited, else answered by `add`. */
  function Register(h: Hub, c: Client): (r: Call<Option<string>>)
    ensures h.phase == Exited ==> r == Returns(h, Some(ManagerExited))
    ensures h.phase == Created || h.phase == Cancelled ==> r.Blocks?
    ensures h.phase == Running ==> r == Returns(Hub(Running, Add(h.mgr, c).next), Add(h.mgr, c).err)
  {
    match h.phase
    case Created | Cancelled => Blocks
    case Exited => Returns(h, Some(ManagerExited))
    case Running =>
      var a := Add(h.mgr, c);
      Returns(Hub(Running, a.next), a.err)
  }

  /** `Unregister`: no effect once the manager has exited. */
  function Unregister(h: Hub, c: Client): (r: Call<()>)
    requires h.phase == Running && c in h.mgr.clients ==> c.addr in h.mgr.limits
    ensures h.phase == Exited ==> r == Returns(h, ())
    ensures h.phase == Created || h.phase == Cancelled ==> r.Blocks?
    ensures h.phase == Running ==> r == Returns(Hub(Running, Remove(h.mgr, c)), ())
  {
    match h.phase
    case Created | Cancelled => Blocks
    case Exited => Returns(h, ())
    case Running => Returns(Hub(Running, Remove(h.mgr, c)), ())
  }

  /** `Broadcast`: no effect once the manager has exited. */
  function BroadcastCall(h: Hub, src: Client, msg: IncomingMessage, allow: bool, storeOk: bool, failures: seq<Client>)
    : (r: Call<Effects>)
    requires h.phase == Running ==> src.addr in h.mgr.limits && FanOutFailures(h.mgr, failures)
    ensures h.phase == Exited ==> r == Returns(h, Effects(None, {}))
    ensures h.phase == Created || h.phase == Cancelled ==> r.Blocks?
    ensures h.phase == Running ==>
              var s := Send(h.mgr, src, msg, allow, storeOk, failures);
              r == Returns(Hub(Running, s.next), s.effects)
  {
    match h.phase
    case Created | Cancelled => Blocks
    case Exited => Returns(h, Effects(None, {}))
    case Running =>
      var s := Send(h.mgr, src, msg, allow, storeOk, failures);
      Returns(Hub(Running, s.next), s.effects)
  }

  /** `Num`: the live-set size while running, 0 once exited. */
  function Num(h: Hub): (r: Call<int>)
    ensures h.phase == Exited ==> r == Returns(h, 0)
    ensures h.phase == Created || h.phase == Cancelled ==> r.Blocks?
    ensures h.phase == Running ==> r == Returns(h, |h.mgr.clients|)
  {
    match h.phase
    case Created | Cancelled => Blocks
    case Exited => Returns(h, 0)
    case Running => Returns(h, |h.mgr.clients|)
  }

  /**
   A context cancelled before `Run` is not lost: `Run` then returns at once,
   and the manager answers every later call as an exited one.
   */
  lemma CancelBeforeRun(h: Hub, c: Client)
    requires h.phase == Created
    ensures Run(Cancel(h)) == Some(Hub(Exited, h.mgr))
    ensures Register(Run(Cancel(h)).value, c) == Returns(Hub(Exited, h.mgr), Some(ManagerExited))
    ensures Num(Run(Cancel(h)).value) == Returns(Hub(Exited, h.mgr), 0)
  {
  }

  /**
   Once a running manager's context is cancelled it stays exited: every call
   returns at once and changes nothing, registration is refused, the count
   reads 0, and running it again panics.
   */
  lemma ExitedIsFinal(h: Hub, c: Client, src: Client, msg: IncomingMessage, allow: bool, storeOk: bool, failures: seq<Client>)
    requires h.phase == Running
    ensures var x := Cancel(h);
            && x.mgr == h.mgr
            && Register(x, c) == Returns(x, Some(ManagerExited))
            && Unregister(x, c) == Returns(x, ())
            && BroadcastCall(x, src, msg, allow, storeOk, failures) == Returns(x, Effects(None, {}))
            && Num(x) == Returns(x, 0)
            && Run(x).None?
            && Cancel(x) == x
  {
  }
}
