/**
 backend/main.go: the oldest revision of the server. Connections sit in a
 concurrent set, each inbound update is validated, then checked against a
 per-IP 200 ms gap, then queued for the `run` loop, which writes Redis,
 reads the whole canvas back and sends it to every connection.
 */
module MainServer {
  import opened Wrappers
  import opened Strconv
  import opened Messages
  import Utils

  /** Go's `time.Time` as nanoseconds. */
  const Millisecond: int := 1_000_000
  const MinGap: int := 200 * Millisecond

  /** A `*websocket.Conn`, by identity. */
  datatype Conn = Conn(id: nat)

  /** `clients` is the `sync.Map` of connections, `lastUpdate` the one of IP -> last accepted time. */
  datatype Server = Server(clients: set<Conn>, lastUpdate: map<string, int>)

  /**
   This revision's `validateIncomingMessage`: the same four checks in the same
   order as backend/utils.go, with the same error texts.
   */
  function ValidateIncomingMessage(u: IncomingMessage): (r: Option<Utils.ValidationError>)
    ensures r.None? <==> u.kind == "update" && Utils.ValidIndex(u.data.index) && SingleDigitNumeral(u.data.color)
    ensures r == Utils.ValidateIncomingMessage(u)
  {
    AtoiSingleDigit(u.data.color);
    if u.kind != "update" then Some(Utils.InvalidType(u.kind))
    else if u.data.index < 0 || u.data.index >= 10000 then Some(Utils.InvalidIndex(u.data.index))
    else
      match Atoi(u.data.color)
      case None => Some(Utils.InvalidColor(u.data.color))
      case Some(n) =>
        if n < 0 || n > 9 then Some(Utils.ColorOutOfRange(n)) else None
  }

  /**
   `checkRateLimit`: refuses an IP whose last accepted update is less than
   200 ms old, leaving the record; otherwise records `now` and accepts. Other
   IPs' records are untouched.
   */
  function CheckRateLimit(last: map<string, int>, ip: string, now: int): (r: (map<string, int>, bool))
    ensures r.1 <==> ip !in last || now - last[ip] >= MinGap
    ensures r.1 ==> r.0 == last[ip := now]
    ensures !r.1 ==> r.0 == last
    ensures forall other :: other != ip ==> (other in r.0 <==> other in last)
    ensures forall other :: other != ip && other in last ==> r.0[other] == last[other]
  {
    if ip in last && now - last[ip] < MinGap then (last, false)
    else (last[ip := now], true)
  }

  /** One call of `checkRateLimit`. */
  datatype Attempt = Attempt(ip: string, now: int)

  /** The times at which calls from `ip` were accepted, over a run of calls. */
  function AcceptedTimes(last: map<string, int>, calls: seq<Attempt>, ip: string): seq<int>
    decreases |calls|
  {
    if |calls| == 0 then []
    else
      var step := CheckRateLimit(last, calls[0].ip, calls[0].now);
      var rest := AcceptedTimes(step.0, calls[1..], ip);
      if step.1 && calls[0].ip == ip then [calls[0].now] + rest else rest
  }

  predicate Spaced(ts: seq<int>) {
    forall i :: 0 <= i < |ts| - 1 ==> ts[i + 1] - ts[i] >= MinGap
  }

  /**
   Successive accepted updates from one IP are at least 200 ms apart, and the
   first is at least 200 ms after the time already on record.
   */
  lemma {:induction false} AcceptedSpaced(last: map<string, int>, calls: seq<Attempt>, ip: string)
    ensures Spaced(AcceptedTimes(last, calls, ip))
    ensures ip in last && |AcceptedTimes(last, calls, ip)| > 0 ==>
              AcceptedTimes(last, calls, ip)[0] - last[ip] >= MinGap
    decreases |calls|
  {
    if |calls| > 0 {
      var step := CheckRateLimit(last, calls[0].ip, calls[0].now);
      AcceptedSpaced(step.0, calls[1..], ip);
    }
  }

  /** `countClients`: one count per entry met by `Range`. */
  method CountClients(clients: set<Conn>) returns (count: nat)
    ensures count == |clients|
  {
    count := 0;
    var rest := clients;
    while rest != {}
      invariant rest <= clients
      invariant count + |rest| == |clients|
      decreases rest
    {
      var c :| c in rest;
      rest := rest - {c};
      count := count + 1;
    }
  }

  /** This revision's broadcast carries the whole canvas as its data. */
  datatype Snapshot = Snapshot(kind: string, data: string, clientCount: int)

  datatype Frame = Text(text: string) | Canvas(msg: Snapshot)

  /** Redis `SETRANGE` issued, Redis `GET` issued, frames delivered. */
  datatype Effects = Effects(storeWrite: Option<UpdatedColor>, readBack: bool, sent: set<Delivery<Conn, Frame>>)

  /** The `register` case of `run`. */
  function Register(s: Server, c: Conn): (r: Server)
    ensures r.clients == s.clients + {c} && r.lastUpdate == s.lastUpdate
  {
    s.(clients := s.clients + {c})
  }

  /** The `unregister` case of `run`; the socket is closed. */
  function Unregister(s: Server, c: Conn): (r: Server)
    ensures r.clients == s.clients - {c} && r.lastUpdate == s.lastUpdate
  {
    s.(clients := s.clients - {c})
  }

  /** A connection that registers and then unregisters leaves the server as it found it. */
  lemma RegisterThenUnregister(s: Server, c: Conn)
    requires c !in s.clients
    ensures Unregister(Register(s, c), c) == s
    ensures c in Register(s, c).clients
  {
  }

  /**
   The `broadcast` case of `run`: `storeOk` is the outcome of the Redis
   write, `canvas` that of the read-back, `failures` the connections whose
   write fails. Either Redis failure ends the case before any fan-out.
   */
  method Broadcast(s: Server, u: IncomingMessage, storeOk: bool, canvas: Option<string>, failures: set<Conn>)
    returns (next: Server, effects: Effects)
    ensures effects.storeWrite == Some(u.data)
    ensures effects.readBack <==> storeOk
    ensures !storeOk || canvas.None? ==> next == s && effects.sent == {}
    ensures storeOk && canvas.Some? ==>
              && next == s.(clients := s.clients - failures)
              && forall d :: d in effects.sent <==>
                   && d.to in s.clients && d.to !in failures
                   && d.frame == Canvas(Snapshot("update", canvas.value, |s.clients|))
  {
    if !storeOk {
      return s, Effects(Some(u.data), false, {});
    }
    if canvas.None? {
      return s, Effects(Some(u.data), true, {});
    }
    var count := CountClients(s.clients);
    var frame := Canvas(Snapshot("update", canvas.value, count));
    var sent := set c | c in s.clients && c !in failures :: Delivery(c, frame);
    next := s.(clients := s.clients - failures);
    effects := Effects(Some(u.data), true, sent);
  }

  /** What the connection's read loop does with one inbound frame. */
  datatype Handled = Handled(next: Server, reply: Option<string>, queued: Option<IncomingMessage>)

  /**
   One iteration of `handleConnections`' read loop: `decoded` is the JSON
   decoding of the frame, `ip` the client's address. A frame that does not
   decode or an update that fails validation is answered and never reaches the
   rate check; an update arriving too soon is answered "rate limit"; any other
   is queued for broadcast.
   */
  function HandleMessage(s: Server, decoded: Option<IncomingMessage>, ip: string, now: int): (r: Handled)
    ensures decoded.None? ==> r == Handled(s, Some(InvalidInputType), None)
    ensures decoded.Some? && ValidateIncomingMessage(decoded.value).Some? ==>
              r == Handled(s, Some("Error: " + ValidateIncomingMessage(decoded.value).value.Text()), None)
    ensures r.queued.Some? <==>
              && decoded.Some? && ValidateIncomingMessage(decoded.value).None?
              && CheckRateLimit(s.lastUpdate, ip, now).1
    ensures r.queued.Some? ==> r.queued == decoded && r.reply.None?
    ensures r.queued.Some? ==> r.next.lastUpdate == CheckRateLimit(s.lastUpdate, ip, now).0
    ensures decoded.Some? && ValidateIncomingMessage(decoded.value).None? && !CheckRateLimit(s.lastUpdate, ip, now).1
            ==> r == Handled(s, Some("rate limit"), None)
    ensures r.next.clients == s.clients
    ensures r.next.lastUpdate != s.lastUpdate ==> r.queued.Some?
  {
    match decoded
    case None => Handled(s, Some(InvalidInputType), None)
    case Some(u) =>
      match ValidateIncomingMessage(u)
      case Some(err) => Handled(s, Some("Error: " + err.Text()), None)
      case None =>
        var (last, ok) := CheckRateLimit(s.lastUpdate, ip, now);
        if !ok then Handled(s, Some("rate limit"), None)
        else Handled(s.(lastUpdate := last), None, Some(u))
  }

  /** An update that fails validation never spends the IP's rate slot. */
  lemma InvalidKeepsRateSlot(s: Server, u: IncomingMessage, ip: string, now: int, later: int)
    requires ValidateIncomingMessage(u).Some?
    ensures HandleMessage(s, Some(u), ip, now).next == s
    ensures CheckRateLimit(HandleMessage(s, Some(u), ip, now).next.lastUpdate, ip, later)
         == CheckRateLimit(s.lastUpdate, ip, later)
  {
  }
}
