/**
 The `onmessage` handler of the older frontend/websocket.js. The pixel
 logic is that of frontend/js/websocket.js; the page effects differ: a client
 limit only rewrites the loading text, and `initial` hides the loading
 element instead of removing the captcha overlay.
 */
module LegacyReducer {
  import opened Wrappers
  import opened Messages
  import opened JsString
  import PixelReducer

  const ClientLimitNotice: string := "Client limit exceeded. Please try again later."

  datatype View = View(pixels: string, clientCount: Option<int>, canvasShown: bool, loadingShown: bool, loadingText: string)

  /**
   One `message` event: control strings first (rate limit ignored, client
   limit shown in the loading text), then a parse that may throw, then the
   new pixel string (`initial` data, spliced `update`, or "" for any other
   type) and the client count.
   */
  function OnMessage(v: View, e: Event): (r: View)
    ensures e.text == RateLimitExceeded ==> r == v
    ensures e.text == ClientLimitExceeded ==> r == v.(loadingText := ClientLimitNotice)
    ensures e.text != RateLimitExceeded && e.text != ClientLimitExceeded ==>
              match e.parsed
              case None => r == v
              case Some(Initial(data, n)) =>
                r == v.(pixels := data, clientCount := Some(n), canvasShown := true, loadingShown := false)
              case Some(Update(i, color, n)) =>
                && r == v.(pixels := r.pixels, clientCount := Some(n))
                && (0 <= i < |v.pixels| ==> r.pixels == v.pixels[..i] + color + v.pixels[i + 1..])
                && (i < 0 ==> r.pixels == color + v.pixels)
                && (i >= |v.pixels| ==> r.pixels == v.pixels + color)
              case Some(OtherType(_, n)) => r == v.(pixels := "", clientCount := n)
  {
    if e.text == RateLimitExceeded then v
    else if e.text == ClientLimitExceeded then v.(loadingText := ClientLimitNotice)
    else
      match e.parsed
      case None => v
      case Some(Initial(data, n)) =>
        v.(pixels := data, clientCount := Some(n), canvasShown := true, loadingShown := false)
      case Some(Update(i, color, n)) => v.(pixels := Splice(v.pixels, i, color), clientCount := Some(n))
      case Some(OtherType(_, n)) => v.(pixels := "", clientCount := n)
  }

  /** An in-range one-unit update replaces exactly that cell and keeps the length. */
  lemma UpdateSetsCell(v: View, text: string, i: int, color: string, n: int)
    requires text != RateLimitExceeded && text != ClientLimitExceeded
    requires 0 <= i < |v.pixels| && |color| == 1
    ensures var p := OnMessage(v, Event(text, Some(Update(i, color, n)))).pixels;
            && |p| == |v.pixels|
            && p[i] == color[0]
            && forall j :: 0 <= j < |p| && j != i ==> p[j] == v.pixels[j]
  {
    SpliceCell(v.pixels, i, color);
  }

  /**
   The two revisions agree on the canvas and the client count: from the same
   pixels and count, every event leaves both with the same pixels and count.
   */
  lemma SameCanvasAsCurrent(v: View, w: PixelReducer.View, e: Event)
    requires v.pixels == w.pixels && v.clientCount == w.clientCount
    ensures OnMessage(v, e).pixels == PixelReducer.OnMessage(w, e).pixels
    ensures OnMessage(v, e).clientCount == PixelReducer.OnMessage(w, e).clientCount
  {
  }

  /** Unlike the current revision, a client limit leaves the canvas displayed. */
  lemma ClientLimitKeepsCanvas(v: View, e: Event)
    requires e.text == ClientLimitExceeded
    ensures OnMessage(v, e).canvasShown == v.canvasShown
    ensures OnMessage(v, e).pixels == v.pixels
  {
  }
}
