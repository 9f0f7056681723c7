/**
 The `onmessage` handler of frontend/js/websocket.js as a reducer from the
 page state and one socket event to the next page state. Drawing and the
 colour counters are recomputed from the new pixel string and are not part
 of the state (the counters are modelled in ColorCounters).
 */
module PixelReducer {
  import opened Wrappers
  import opened Messages
  import opened JsString

  const ClientLimitNotice: string := "Client limit exceeded. Please try again later."

  /**
   The `#loading` element: the canvas renderer's constructor removes it from
   the page, after which the handler's reference to it is `null`.
   */
  datatype Loading = Absent | Present(shown: bool, text: string)

  /**
   What the handler touches: the pixel string, the number in `#client-count`
   (`None`: nothing shown), whether the canvas is displayed, the loading
   element, and whether the captcha overlay (captcha, connect message,
   disclaimer, frosted glass) is still on the page.
   */
  datatype View = View(pixels: string, clientCount: Option<int>, canvasShown: bool, loading: Loading, overlay: bool)

  /**
   One `message` event. The two control strings are checked before parsing;
   a frame `JSON.parse` rejects throws and changes nothing; otherwise the new
   pixel string is the `initial` canvas, the spliced `update`, or "" for any
   other type, and the client count is shown. With the loading element gone,
   "client limit exceeded" hides the canvas and then throws on the null
   element, so the notice is never shown.
   */
  function OnMessage(v: View, e: Event): (r: View)
    ensures e.text == RateLimitExceeded ==> r == v
    ensures e.text == ClientLimitExceeded ==>
              r == v.(canvasShown := false,
                      loading := if v.loading.Present? then Present(true, ClientLimitNotice) else Absent)
    ensures e.text != RateLimitExceeded && e.text != ClientLimitExceeded ==>
              match e.parsed
              case None => r == v
              case Some(Initial(data, n)) =>
                r == v.(pixels := data, clientCount := Some(n), canvasShown := true, overlay := false)
              case Some(Update(i, color, n)) =>
                && r == v.(pixels := r.pixels, clientCount := Some(n))
                && (0 <= i < |v.pixels| ==> r.pixels == v.pixels[..i] + color + v.pixels[i + 1..])
                && (i < 0 ==> r.pixels == color + v.pixels)
                && (i >= |v.pixels| ==> r.pixels == v.pixels + color)
              case Some(OtherType(_, n)) => r == v.(pixels := "", clientCount := n)
  {
    if e.text == RateLimitExceeded then v
    else if e.text == ClientLimitExceeded then
      var hidden := v.(canvasShown := false);
      if v.loading.Present? then hidden.(loading := Present(true, ClientLimitNotice)) else hidden
    else
      match e.parsed
      case None => v
      case Some(Initial(data, n)) =>
        v.(pixels := data, clientCount := Some(n), canvasShown := true, overlay := false)
      case Some(Update(i, color, n)) => v.(pixels := Splice(v.pixels, i, color), clientCount := Some(n))
      case Some(OtherType(_, n)) => v.(pixels := "", clientCount := n)
  }

  /** Neither control string ever changes the pixels. */
  lemma ControlStringsKeepPixels(v: View, e: Event)
    requires e.text == RateLimitExceeded || e.text == ClientLimitExceeded
    ensures OnMessage(v, e).pixels == v.pixels
  {
  }

  /** Once the renderer has removed the loading element, "client limit exceeded" only hides the canvas: no notice appears. */
  lemma ClientLimitNoticeLost(v: View, e: Event)
    requires v.loading == Absent && e.text == ClientLimitExceeded
    ensures OnMessage(v, e) == v.(canvasShown := false)
  {
  }

  /** An update to a cell inside the canvas with a one-unit colour keeps the length, sets that cell and no other. */
  lemma UpdateSetsCell(v: View, text: string, i: int, color: string, n: int)
    requires text != RateLimitExceeded && text != ClientLimitExceeded
    requires 0 <= i < |v.pixels| && |color| == 1
    ensures var p := OnMessage(v, Event(text, Some(Update(i, color, n)))).pixels;
            && |p| == |v.pixels|
            && p[i] == color[0]
            && forall j :: 0 <= j < |p| && j != i ==> p[j] == v.pixels[j]
  {
    SpliceCell(v.pixels, i, color);
  }

  /** An event that is a well-formed update of one in-range cell with a one-unit colour. */
  predicate CellUpdate(e: Event, len: nat) {
    && e.text != RateLimitExceeded && e.text != ClientLimitExceeded
    && OneUnitUpdate(e)
    && 0 <= e.parsed.value.index < len
  }

  /** The events received in order, the last one applied last. */
  function Receive(v: View, events: seq<Event>): View
    decreases |events|
  {
    if |events| == 0 then v else OnMessage(Receive(v, events[..|events| - 1]), events[|events| - 1])
  }

  /** The colour of cell `k` after `updates`: that of the last one-unit update aimed at `k`, or the starting one. */
  function LastWrite(start: string, updates: seq<Event>, k: nat): char
    requires k < |start|
    decreases |updates|
  {
    if |updates| == 0 then start[k]
    else
      var last := updates[|updates| - 1];
      if OneUnitUpdate(last) && last.parsed.value.index == k then last.parsed.value.color[0]
      else LastWrite(start, updates[..|updates| - 1], k)
  }

  /** An event parsed as an update whose colour is one code unit. */
  predicate OneUnitUpdate(e: Event) {
    e.parsed.Some? && e.parsed.value.Update? && |e.parsed.value.color| == 1
  }

  /**
   After any run of in-range one-unit updates the canvas keeps its length,
   and every cell shows the colour of the last update aimed at it, or its
   starting colour when none was.
   */
  lemma {:induction false} ReceiveTracksLastWrite(v: View, updates: seq<Event>)
    requires forall j :: 0 <= j < |updates| ==> CellUpdate(updates[j], |v.pixels|)
    ensures |Receive(v, updates).pixels| == |v.pixels|
    ensures forall k :: 0 <= k < |v.pixels| ==> Receive(v, updates).pixels[k] == LastWrite(v.pixels, updates, k)
    decreases |updates|
  {
    if |updates| > 0 {
      var init := updates[..|updates| - 1];
      var last := updates[|updates| - 1];
      ReceiveTracksLastWrite(v, init);
      var before := Receive(v, init);
      var m := last.parsed.value;
      UpdateSetsCell(before, last.text, m.index, m.color, m.clientCount);
    }
  }
}
