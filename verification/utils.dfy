/**
 backend/utils.go: the inbound update validator and the client address
 resolution used by the hub revisions.
 */
module Utils {
  import opened Wrappers
  import opened Strconv
  import opened Messages

  /** The canvas is a 100 x 100 grid. */
  const GridCells: int := 10000

  predicate ValidIndex(i: int) {
    0 <= i < GridCells
  }

  /** The four ways `validateIncomingMessage` rejects an update, in check order. */
  datatype ValidationError =
    | InvalidType(kind: string)
    | InvalidIndex(index: int)
    | InvalidColor(color: string)
    | ColorOutOfRange(value: int)
  {
    /** The error's text as `fmt.Errorf` renders it. */
    function Text(): string {
      match this
      case InvalidType(k) => "invalid message type: " + k
      case InvalidIndex(i) => "invalid index: " + FormatInt(i)
      case InvalidColor(c) => "invalid color value: " + c
      case ColorOutOfRange(v) => "color value out of range: " + FormatInt(v)
    }
  }

  /**
   `validateIncomingMessage`: the type, then the index range, then the Atoi
   parse, then the 0..9 range; the first failing check names the error.
   */
  function ValidateIncomingMessage(u: IncomingMessage): (r: Option<ValidationError>)
    ensures r.None? <==> u.kind == "update" && ValidIndex(u.data.index) && SingleDigitNumeral(u.data.color)
    ensures u.kind != "update" ==> r == Some(InvalidType(u.kind))
    ensures u.kind == "update" && !ValidIndex(u.data.index) ==> r == Some(InvalidIndex(u.data.index))
    ensures u.kind == "update" && ValidIndex(u.data.index) && Atoi(u.data.color).None?
            ==> r == Some(InvalidColor(u.data.color))
    ensures u.kind == "update" && ValidIndex(u.data.index) && Atoi(u.data.color).Some?
            && (Atoi(u.data.color).value < 0 || Atoi(u.data.color).value > 9)
            ==> r == Some(ColorOutOfRange(Atoi(u.data.color).value))
    ensures r.Some? && r.value.ColorOutOfRange? ==>
              && u.kind == "update" && ValidIndex(u.data.index)
              && Atoi(u.data.color) == Some(r.value.value)
              && (r.value.value < 0 || r.value.value > 9)
  {
    AtoiSingleDigit(u.data.color);
    if u.kind != "update" then Some(InvalidType(u.kind))
    else if u.data.index < 0 || u.data.index >= GridCells then Some(InvalidIndex(u.data.index))
    else
      match Atoi(u.data.color)
      case None => Some(InvalidColor(u.data.color))
      case Some(n) =>
        if n < 0 || n > 9 then Some(ColorOutOfRange(n)) else None
  }

  /** Acceptance looks at the colour's value, not its spelling. */
  lemma PaddedColorsAccepted(i: int)
    requires ValidIndex(i)
    ensures ValidateIncomingMessage(IncomingMessage("update", UpdatedColor(i, "07"))).None?
    ensures ValidateIncomingMessage(IncomingMessage("update", UpdatedColor(i, "+7"))).None?
    ensures ValidateIncomingMessage(IncomingMessage("update", UpdatedColor(i, "-0"))).None?
    ensures ValidateIncomingMessage(IncomingMessage("update", UpdatedColor(i, "-7"))) == Some(ColorOutOfRange(-7))
    ensures ValidateIncomingMessage(IncomingMessage("update", UpdatedColor(i, "7 "))) == Some(InvalidColor("7 "))
  {
    assert "07"[..1] == "0";
    assert "+7"[..1] == "+";
    assert "-0"[..1] == "-";
    assert "-7"[1..] == "7";
  }

  /** HTTP request headers and peer address; an absent header reads as "". */
  datatype Request = Request(xRealIp: string, xForwardedFor: string, remoteAddr: string)

  /** The `before` part of `strings.Cut(s, ",")`. */
  function CutComma(s: string): (first: string)
    ensures first <= s
    ensures forall i :: 0 <= i < |first| ==> first[i] != ','
    ensures |first| < |s| ==> s[|first|] == ','
  {
    if |s| == 0 || s[0] == ',' then "" else [s[0]] + CutComma(s[1..])
  }

  /** The first present value of a list of optional values. */
  function FirstSome<A>(xs: seq<Option<A>>): (r: Option<A>)
    ensures r.None? <==> forall i :: 0 <= i < |xs| ==> xs[i].None?
    ensures r.Some? ==> exists i :: 0 <= i < |xs| && xs[i] == r && forall j :: 0 <= j < i ==> xs[j].None?
  {
    if |xs| == 0 then None
    else if xs[0].Some? then xs[0]
    else
      var r := FirstSome(xs[1..]);
      assert forall i :: 1 <= i < |xs| ==> xs[i] == xs[1..][i - 1];
      r
  }

  lemma FirstSomeSkip<A>(xs: seq<Option<A>>)
    requires |xs| > 0
    ensures FirstSome(xs) == if xs[0].Some? then xs[0] else FirstSome(xs[1..])
  {
  }

  /** The four address sources `getIP` consults, in order. */
  function AddressSources<A>(r: Request, connAddr: Option<A>, parseAddrPort: string -> Option<A>): seq<Option<A>> {
    [ if r.xRealIp != "" then parseAddrPort(r.xRealIp) else None,
      if r.xForwardedFor != "" then parseAddrPort(CutComma(r.xForwardedFor)) else None,
      connAddr,
      parseAddrPort(r.remoteAddr) ]
  }

  /**
   `getIP`: `parseAddrPort` is `netip.ParseAddrPort(..).Addr()` and
   `connAddr` is the connection's own `AddrPort`, when it has one; both are
   given, not computed.
   */
  function GetIP<A>(r: Request, connAddr: Option<A>, parseAddrPort: string -> Option<A>): (ip: Option<A>)
    ensures ip == FirstSome(AddressSources(r, connAddr, parseAddrPort))
    ensures ip.None? <==> forall i :: 0 <= i < 4 ==> AddressSources(r, connAddr, parseAddrPort)[i].None?
  {
    var xs := AddressSources(r, connAddr, parseAddrPort);
    FirstSomeSkip(xs);
    FirstSomeSkip(xs[1..]);
    FirstSomeSkip(xs[1..][1..]);
    var viaRealIp := if r.xRealIp != "" then parseAddrPort(r.xRealIp) else None;
    if viaRealIp.Some? then viaRealIp
    else
      var viaForwarded := if r.xForwardedFor != "" then parseAddrPort(CutComma(r.xForwardedFor)) else None;
      if viaForwarded.Some? then viaForwarded
      else if connAddr.Some? then connAddr
      else parseAddrPort(r.remoteAddr)
  }
}
