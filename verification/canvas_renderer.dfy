/**
 The click path of frontend/js/canvasRenderer.js: `updatePixel`'s chain of
 guards and splice, and the private `#isRateLimited` window of twenty clicks
 per five seconds. The cell index is taken as given (the mouse-to-cell
 arithmetic is floating point), `Date.now()` and the socket's ready state are
 inputs, and drawing is left out.
 */
module CanvasRenderer {
  import opened Wrappers
  import opened Messages
  import opened JsString
  import opened SlidingWindow
  import Utils

  /** `Date.now()` milliseconds. */
  const WindowMs: int := 5000
  const MaxClicks: nat := 20
  const CellCount: int := 10000

  /** A key of the colour table: one of the digits "0" to "9". */
  predicate PaletteKey(c: string) {
    |c| == 1 && '0' <= c[0] <= '9'
  }

  /** The renderer's own state: the click timestamps and the "You've updated N pixels" counter. */
  datatype Renderer = Renderer(timestamps: seq<int>, pixelCount: int)

  /**
   `#isRateLimited`: with twenty or more timestamps under 5000 ms old the
   click is limited and the list is left as it was (not even pruned);
   otherwise the list becomes those recent timestamps plus `now`.
   Returns (limited, new list).
   */
  function IsRateLimited(timestamps: seq<int>, now: int): (r: (bool, seq<int>))
    ensures r.0 <==> |Recent(timestamps, now - WindowMs)| >= MaxClicks
    ensures r.0 ==> r.1 == timestamps
    ensures !r.0 ==> r.1 == Recent(timestamps, now - WindowMs) + [now]
    ensures !r.0 ==> |r.1| <= MaxClicks
  {
    var step := WindowStep(timestamps, now, WindowMs, MaxClicks, false);
    (!step.1, step.0)
  }

  /** What a click leaves behind: the renderer, the pixel string, and the update sent on the socket, if any. */
  datatype Click = Click(renderer: Renderer, pixels: string, sent: Option<UpdatedColor>)

  /** `pixelData[index] === selectedColor`: false past the end, where the read is `undefined`. */
  predicate CellHolds(pixels: string, index: int, color: string) {
    0 <= index < |pixels| && [pixels[index]] == color
  }

  /**
   `updatePixel`: an index off the grid, or a cell already of the selected
   colour, returns before anything happens; a limited click returns with
   nothing changed; with the socket not open the click has used a limiter
   slot but nothing else happens; otherwise the pixel counter goes up by one,
   the cell is spliced, and one update with that index and colour is sent.
   */
  function UpdatePixel(st: Renderer, pixels: string, socketOpen: bool, selected: string, index: int, now: int): (r: Click)
    ensures index < 0 || index >= CellCount ==> r == Click(st, pixels, None)
    ensures 0 <= index < CellCount && CellHolds(pixels, index, selected) ==> r == Click(st, pixels, None)
    ensures 0 <= index < CellCount && !CellHolds(pixels, index, selected) ==>
              && (IsRateLimited(st.timestamps, now).0 ==> r == Click(st, pixels, None))
              && (!IsRateLimited(st.timestamps, now).0 ==> r.renderer.timestamps == IsRateLimited(st.timestamps, now).1)
              && (!IsRateLimited(st.timestamps, now).0 && !socketOpen ==>
                    r == Click(st.(timestamps := IsRateLimited(st.timestamps, now).1), pixels, None))
              && (!IsRateLimited(st.timestamps, now).0 && socketOpen ==>
                    && r.renderer.pixelCount == st.pixelCount + 1
                    && r.pixels == Splice(pixels, index, selected)
                    && r.sent == Some(UpdatedColor(index, selected)))
  {
    if index < 0 || index >= CellCount then Click(st, pixels, None)
    else if CellHolds(pixels, index, selected) then Click(st, pixels, None)
    else
      var (limited, stamps) := IsRateLimited(st.timestamps, now);
      if limited then Click(st, pixels, None)
      else if !socketOpen then Click(st.(timestamps := stamps), pixels, None)
      else
        Click(Renderer(stamps, st.pixelCount + 1), Splice(pixels, index, selected), Some(UpdatedColor(index, selected)))
  }

  /** A click on a cell that already has the selected colour does not use up a limiter slot. */
  lemma SameColourSpendsNothing(st: Renderer, pixels: string, socketOpen: bool, index: int, now: int)
    requires 0 <= index < |pixels|
    ensures UpdatePixel(st, pixels, socketOpen, [pixels[index]], index, now) == Click(st, pixels, None)
  {
  }

  /** A click with the socket closed sends nothing and keeps the pixels, but a timestamp is recorded when the limiter let it through. */
  lemma ClosedSocketSpendsSlot(st: Renderer, pixels: string, selected: string, index: int, now: int)
    requires 0 <= index < CellCount && !CellHolds(pixels, index, selected)
    requires !IsRateLimited(st.timestamps, now).0
    ensures var r := UpdatePixel(st, pixels, false, selected, index, now);
            && r.sent == None && r.pixels == pixels
            && r.renderer.timestamps == Recent(st.timestamps, now - WindowMs) + [now]
  {
  }

  /**
   A click that sends paints exactly its cell with a palette colour, and what
   it sends passes the server's `validateIncomingMessage` (backend/utils.go).
   */
  lemma SentUpdateIsValid(st: Renderer, pixels: string, socketOpen: bool, selected: string, index: int, now: int)
    requires PaletteKey(selected) && index < |pixels|
    requires UpdatePixel(st, pixels, socketOpen, selected, index, now).sent.Some?
    ensures var r := UpdatePixel(st, pixels, socketOpen, selected, index, now);
            && Utils.ValidateIncomingMessage(IncomingMessage("update", r.sent.value)).None?
            && |r.pixels| == |pixels| && r.pixels[index] == selected[0]
            && forall j :: 0 <= j < |pixels| && j != index ==> r.pixels[j] == pixels[j]
  {
    SpliceCell(pixels, index, selected);
  }

  /** The clicks the limiter lets through, over successive clicks at `times`. */
  function PassedClicks(timestamps: seq<int>, times: seq<int>): seq<int>
    decreases |times|
  {
    if |times| == 0 then []
    else
      var (limited, next) := IsRateLimited(timestamps, times[0]);
      var rest := PassedClicks(next, times[1..]);
      if limited then rest else [times[0]] + rest
  }

  /** The limiter is a window of twenty per 5000 ms that does not prune on refusal. */
  lemma {:induction false} PassedClicksWindow(timestamps: seq<int>, times: seq<int>)
    ensures PassedClicks(timestamps, times) == WindowAccepted(timestamps, times, WindowMs, MaxClicks, false)
    decreases |times|
  {
    if |times| > 0 {
      PassedClicksWindow(IsRateLimited(timestamps, times[0]).1, times[1..]);
    }
  }

  /**
   From a fresh renderer and a clock that never goes back, the twentieth
   click let through after any click let through comes at least 5000 ms
   after it.
   */
  lemma AtMostTwentyPerWindow(times: seq<int>, i: nat)
    requires Sorted(times)
    requires i + MaxClicks < |PassedClicks([], times)|
    ensures PassedClicks([], times)[i + MaxClicks] - PassedClicks([], times)[i] >= WindowMs
  {
    PassedClicksWindow([], times);
    LimitPerWindow(times, WindowMs, MaxClicks, false, i);
  }
}
