# Pixels: a Dafny model of the canvas hub and its clients

"Ten thousand pixels" is a shared 100 x 100 canvas. Every cell holds one of ten
colour digits. Browsers click cells and send `update` messages over a
websocket. A Go server validates and rate-limits each update and writes it to a
Redis string. It then fans the change out to every connected browser, together
with the number of live connections.

The repository holds several revisions of the server, each a full rewrite, and
two of the browser socket handler. This project models each revision on its
own and does not merge them:

- `ClientManager` (backend/client.go) is the current hub. It is an actor that
  owns the live client set and the per-address registration counts. It answers
  `Register`, `Unregister`, `Broadcast` and `Num` until its context is
  cancelled.
- `ServerHub` (backend/server.go) is the same logic inlined in `Server.Run`.
  It also covers the registration round trip of `handleConnections`.
- `MainServer` (backend/main.go) is the oldest revision. It validates each
  update, enforces a 200 ms gap per IP, counts the connection set, and
  broadcasts the whole canvas read back from Redis.
- `RateLimit` (backend/rateLimit.go) keeps per-IP bookkeeping:
  - a sliding window of 10 updates per 5 seconds;
  - a sweep of entries idle for 10 minutes;
  - a cap of 3 connections per IP.
- `Utils` (backend/utils.go) holds the shared update validator and the
  client-address resolution `getIP`.
- `PixelReducer` and `LegacyReducer` model the `onmessage` handlers of
  frontend/js/websocket.js and frontend/websocket.js. Each is a reducer from
  the page state and one socket event to the next page state.
- `CanvasRenderer` (frontend/js/canvasRenderer.js) covers the click path:
  - the guard chain of `updatePixel`;
  - the cell splice;
  - the private `#isRateLimited` window of 20 clicks per 5000 ms.
- `ColorCounters` (frontend/js/colorCounters.js) counts the colours of the
  pixel string. It sorts the counts highest first with a stable sort and stars
  the top three.

Shared vocabulary lives in several helper modules:

- `Messages`: message shapes and control strings.
- `Registry`: clients by address, and the per-address count bookkeeping.
- `SlidingWindow`: a generic sliding-window limiter and the "at most N per
  window" theorem both limiters inherit.
- `Strconv`: Go's `strconv.Atoi` and `%d` formatting.
- `JsString`: JavaScript's `substring` and the splice built from it.
- `Wrappers`: `Option`.

Time is an input. Go times are nanoseconds and `Date.now()` values are
milliseconds. Some outcomes are given as oracle inputs instead of being
computed:

- a token bucket's `Allow()` answer;
- the outcome of a Redis write or read;
- the set of sockets whose write fails;
- the decoded JSON of a frame.

### Behaviour of the code worth knowing

- The first connection from an address is counted but never made live.
  backend/client.go `add` (lines 138-145) creates the address entry with count
  1 and returns success, but never puts the client into the live set. That
  client therefore receives no broadcasts. Its `remove` is a no-op, so the
  count it holds is never released. `ClientManager.Valid` states the resulting
  invariant: the count is always one more than the live clients. As a result
  at most four clients per address are live (`ClientManager.ReachableBounded`),
  not five. An address entry is also never deleted by `remove` once created,
  because the count never falls below 1.
- backend/server.go `Run` (lines 96-102) does the same with the first
  connection from an address. It also sends no reply on the registration
  channel, so `handleConnections` blocks forever on that connection
  (`ServerHub.Handshake`).
- In backend/server.go a client dropped for a failed write is deleted from the
  live set (lines 88-89) but keeps its address count. Its later `unregister`
  is a no-op, so such slots leak (`ServerHub.LeakedSlotsRefuseRegistration`).
- backend/main.go broadcasts a message of type `update` whose data is the whole
  canvas string (lines 125-132). The browsers read an `update` as one
  `{index, color}` pair.
- In frontend/js, `main.js` constructs the canvas renderer before connecting.
  The renderer's constructor removes the `#loading` element
  (canvasRenderer.js line 5). The "client limit exceeded" branch of
  js/websocket.js (lines 28-33) then hides the canvas and throws on the `null`
  element. The notice is never shown (`PixelReducer.ClientLimitNoticeLost`).
- The 10-per-5-seconds window of backend/rateLimit.go lasts only as long as
  the IP's entry. A disconnect that takes the connection count to 0 deletes
  the entry with its timestamps (lines 66-71), so a client that reconnects
  starts a fresh window (`RateLimit.DisconnectResetsWindow`,
  `RateLimit.ElevenInOneWindow`).
- A context cancelled before backend/client.go `Run` is called makes `Run`
  return at its first `select` (lines 88-91); the model keeps such a
  cancellation until `Run` (`ClientManager.CancelBeforeRun`).
- backend/rateLimit.go reads and writes a `clientCount` field that the
  `RateLimitData` record of backend/models.go does not declare. The model gives
  the record that field.

## Model

| member | source | states |
|---|---|---|
| `ClientManager.Add` | backend/client.go:137-153 | The first registration from an address creates its count at 1 and succeeds, but does not make the client live. At a count of 5 the registration is refused with "too many clients with IP" and nothing changes. Otherwise the count rises by one and the client becomes live. |
| `ClientManager.Remove` | backend/client.go:155-168 | Removing a client that is not live changes nothing. Removing a live client takes it out of the live set and lowers its address count by one. The address entry disappears exactly when the count was 1 or less. Every other address is untouched. The entry must exist, because the source dereferences it. |
| `ClientManager.RemoveIdempotent` | backend/client.go:155-168 | Removing the same client twice is the same as removing it once. |
| `ClientManager.RemoveAll` | backend/client.go:128-134 | Removing the fan-out's failed clients one by one leaves exactly the live clients minus the failed ones. The counts drop by the number of failed clients at each address. |
| `ClientManager.Send` | backend/client.go:107-135 | If the limiter denies the update, only the source is told "rate limit exceeded": nothing is stored and the state is unchanged. A failed store write stops before any fan-out. On success every live client that did not fail receives the update with the live count as it was before the fan-out, and the failed clients are removed. |
| `ClientManager.AddValid` | backend/client.go:137-153 | `add` keeps the invariant that each address count is one more than its live clients and at most 5. |
| `ClientManager.RemoveValid` | backend/client.go:155-168 | `remove` keeps the same invariant. |
| `ClientManager.SendValid` | backend/client.go:107-135 | A broadcast, including removal of the clients whose write failed, keeps the invariant. |
| `ClientManager.FirstClientNeverLive` | backend/client.go:138-145 | The first client from an address is counted but never live. |
| `ClientManager.ValidBound` | backend/client.go:146-148 | Under the invariant, no address ever has more than four live clients. |
| `ClientManager.LiveTotalBound` | backend/client.go:102 | Under the invariant, the live count that `numclients` reports is at most four times the number of addresses with an entry. |
| `ClientManager.Step` | backend/client.go:88-103 | Each request the `Run` loop selects leaves a manager that satisfies the invariant. |
| `ClientManager.Replay` | backend/client.go:88-103 | Any run of admissible requests from a valid manager ends in a valid manager. |
| `ClientManager.ReachableBounded` | backend/client.go:82-105 | Every manager reachable from the empty one has at most four live clients per address. Each address entry holds one extra count. |
| `ClientManager.Run` | backend/client.go:82-91 | The first call serves, or exits at once when the context was already cancelled. A second call panics, even after the manager has exited. |
| `ClientManager.Cancel` | backend/client.go:88-91 | Cancelling the context makes a running manager exit, and is remembered until `Run` when it comes first. The client state is kept. |
| `ClientManager.CancelBeforeRun` | backend/client.go:82-91 | A manager whose context was cancelled before `Run` exits as soon as it is run, and then refuses registrations and reports 0 clients. |
| `ClientManager.Register` | backend/client.go:170-178 | After exit a registration gets the "client manager has exited" error. Before `Run` it blocks. While running it returns `add`'s answer and state. |
| `ClientManager.Unregister` | backend/client.go:180-185 | After exit an unregistration has no effect. Before `Run` it blocks. While running it performs `remove`. |
| `ClientManager.BroadcastCall` | backend/client.go:187-192 | After exit a broadcast has no effect and sends nothing. Before `Run` it blocks. While running it performs `send`. |
| `ClientManager.Num` | backend/client.go:194-201 | After exit the count reads 0. Before `Run` it blocks. While running it returns the number of live clients. |
| `ClientManager.ExitedIsFinal` | backend/client.go:170-201 | Once cancelled, the manager stays exited: every call returns at once and changes nothing, and running it again panics. |
| `ServerHub.Register` | backend/server.go:93-111 | An unseen address gets a count of 1 with no reply and no live client. At 5 the reply is "too many clients with IP". Otherwise the client is counted, made live and answered nil. |
| `ServerHub.Unregister` | backend/server.go:112-125 | A client that is not live is ignored. A live client leaves, and its count drops by one. The entry goes exactly when the count was 1 or less. |
| `ServerHub.Broadcast` | backend/server.go:63-92 | A denied update only tells the source. A failed store write ends the case. On success every non-failed live client gets the update with the pre-fan-out live count, and failed clients leave the live set. Address counts are unchanged. |
| `ServerHub.Num` | backend/server.go:126 | The reported count is the number of live clients, and under the invariant at most four times the number of addresses with an entry. |
| `ServerHub.RegisterValid` | backend/server.go:93-111 | Registration keeps this invariant: every address count is at least one more than its live clients and at most 5. |
| `ServerHub.UnregisterValid` | backend/server.go:112-125 | Unregistration keeps the same invariant and never deletes an address entry. |
| `ServerHub.BroadcastValid` | backend/server.go:63-92 | A broadcast keeps the same invariant. |
| `ServerHub.FailedClientKeepsSlot` | backend/server.go:84-91 | A client dropped by a failed write is gone from the live set, but its address count stays. Its later unregistration changes nothing. |
| `ServerHub.LeakedSlotsRefuseRegistration` | backend/server.go:84-124 | Example: four live clients from one address all fail one fan-out. Afterwards no client from that address is live, yet a new registration from it is refused. |
| `ServerHub.Handshake` | backend/server.go:170-177 | The connecting side waits forever exactly when its address is new. It is refused exactly when its address count is 5 or more, and admitted, and then live, otherwise. |
| `MainServer.ValidateIncomingMessage` | backend/main.go:86-105 | This revision's validator accepts exactly the same updates as the one in backend/utils.go and gives the same errors. |
| `MainServer.CheckRateLimit` | backend/main.go:230-239 | An IP is refused exactly when its last accepted update is under 200 ms old, and the record is then kept. Otherwise `now` is recorded. Other IPs are untouched. |
| `MainServer.AcceptedSpaced` | backend/main.go:230-239 | Over any run of calls, successive accepted updates from one IP are at least 200 ms apart. The first is at least 200 ms after the time already on record. |
| `MainServer.CountClients` | backend/main.go:241-248 | Counting over the connection set yields its size. |
| `MainServer.Register` | backend/main.go:110-111 | Registration adds the connection and leaves the rate records alone. |
| `MainServer.Unregister` | backend/main.go:112-114 | Unregistration removes the connection and leaves the rate records alone. |
| `MainServer.RegisterThenUnregister` | backend/main.go:110-114 | A new connection that registers and then unregisters leaves the server as it was. |
| `MainServer.Broadcast` | backend/main.go:115-149 | The update is always written to the store. The canvas is read back only when the write succeeded. Either failure ends the case with nothing sent. Otherwise every non-failed connection is sent the whole canvas with the pre-fan-out count, and the failed ones are dropped. |
| `MainServer.HandleMessage` | backend/main.go:189-239 | A frame that does not decode is answered "Invalid input type". An update that fails validation is answered "Error: " and the error text. Neither reaches the rate check. A valid update arriving less than 200 ms after the IP's last accepted one is answered "rate limit" and changes nothing. An update is queued exactly when it decodes, validates and passes the 200 ms check; a queued update records its arrival time as the IP's last update, and only a queued update changes the rate records. |
| `MainServer.InvalidKeepsRateSlot` | backend/main.go:206-216 | An invalid update never spends the IP's rate slot: a later check gives the same answer as without it. |
| `Utils.ValidateIncomingMessage` | backend/utils.go:54-73 | An update is accepted exactly when its type is "update", its index is in 0..9999 and its colour is a base-10 numeral of value 0..9, with sign and leading zeros allowed. Otherwise the first failing check, in source order, names the error: a wrong type, then an index outside the grid, then a colour `Atoi` rejects, then a parsed colour outside 0..9, which is reported with its value. |
| `Utils.PaddedColorsAccepted` | backend/utils.go:63-70 | Colours "07", "+7" and "-0" are accepted. "-7" is out of range. "7 " is not a number. |
| `Utils.CutComma` | backend/utils.go:84 | The result is the longest comma-free prefix of the header. |
| `Utils.GetIP` | backend/utils.go:75-101 | The result is the first address that resolves, tried in this order: X-Real-Ip, the first X-Forwarded-For entry, the connection's own address, then the request's remote address. There is none exactly when all four fail. |
| `Strconv.Atoi` | backend/utils.go:63 | Go's `strconv.Atoi` yields a value exactly for an optional sign followed by one or more ASCII digits whose value, read by Horner's rule, lies in int64 range, and then yields that value. |
| `Strconv.AtoiFormatRoundTrip` | backend/utils.go:60-69 | Parsing the `%d` rendering of any int64 gives back that integer. |
| `Strconv.AtoiSingleDigit` | backend/utils.go:63-70 | `Atoi` yields a value in 0..9 exactly for the single-digit numerals: optional sign, leading zeros, and "-" only before a zero value. |
| `RateLimit.CheckRateLimit` | backend/rateLimit.go:5-35 | The IP's timestamps are cut to those inside the last 5 s. The update is refused exactly when ten or more remain, and the cut list is stored. Otherwise `now` is appended. The connection count and other IPs are untouched. |
| `RateLimit.CheckRateLimitBounded` | backend/rateLimit.go:14-28 | No IP ever stores more than ten timestamps. |
| `RateLimit.AcceptedCallsWindow` | backend/rateLimit.go:14-28 | For one IP, successive calls behave as a window limiter of ten per 5 s that prunes on refusal. |
| `RateLimit.AtMostTenPerWindow` | backend/rateLimit.go:14-28 | Within one entry's lifetime (from its creation until a decrement or a sweep deletes it), with a clock that never goes back, the tenth accepted update after any accepted update comes at least 5 s later. |
| `RateLimit.DisconnectResetsWindow` | backend/rateLimit.go:66-71 | When an IP's only connection disconnects, the entry goes with its timestamps; after a reconnect the next update is accepted at any time. |
| `RateLimit.ElevenInOneWindow` | backend/rateLimit.go:14-71 | Example: ten updates accepted at 0..9 ns fill the window and an eleventh at 10 ns is refused, but after a disconnect and reconnect it is accepted. |
| `RateLimit.CleanupRateLimits` | backend/rateLimit.go:37-52 | The sweep deletes exactly the entries with no timestamps or a last stored timestamp over 10 minutes old, and keeps the rest unchanged. |
| `RateLimit.CleanupIdempotent` | backend/rateLimit.go:37-52 | A second sweep at the same time removes nothing more. |
| `RateLimit.AcceptedSurvivesSweep` | backend/rateLimit.go:27-52 | An IP whose update was just accepted survives any sweep within the next 10 minutes. |
| `RateLimit.SweepForgetsConnections` | backend/rateLimit.go:46-71 | The sweep also deletes the connection count of an IP that never drew. A later disconnect then leaves -1. |
| `RateLimit.CheckAndUpdateClientCount` | backend/rateLimit.go:54-74 | An increment at three or more connections is refused and changes nothing. Otherwise it adds one. A decrement always succeeds, subtracts one, and deletes the entry exactly when that leaves 0. Other IPs are untouched. |
| `RateLimit.ClientCountCapped` | backend/rateLimit.go:61-65 | No IP's connection count ever exceeds three. |
| `RateLimit.ConnectDisconnect` | backend/rateLimit.go:54-74 | A connect followed by its disconnect restores the map. The exception is an entry that held timestamps and no connections: the disconnect deletes it, timestamps included. |
| `RateLimit.DisconnectWithoutConnect` | backend/rateLimit.go:66-71 | A disconnect with no prior connect leaves a count of -1. |
| `SlidingWindow.WindowStep` | backend/rateLimit.go:14-28 | A call is admitted exactly when fewer than `limit` stored times lie inside the window, and the list becomes those times plus `now`. A refusal either prunes the list or keeps it, depending on the limiter. |
| `SlidingWindow.LimitPerWindow` | frontend/js/canvasRenderer.js:121-138 | For either limiter, with a clock that never goes back, the admitted call `limit` places after any admitted call is at least one window later. |
| `PixelReducer.OnMessage` | frontend/js/websocket.js:23-58 | "rate limit exceeded" changes nothing. "client limit exceeded" hides the canvas and shows the notice only while the loading element exists. A frame that does not parse changes nothing. `initial` shows its canvas and removes the captcha overlay. `update` splices its colour at its index, with `substring`'s clamping out of range. Any other type clears the pixels. Every parsed frame sets the displayed count. Each case leaves every field it does not mention as it was. |
| `PixelReducer.ControlStringsKeepPixels` | frontend/js/websocket.js:24-33 | Neither control string ever changes the pixels. |
| `PixelReducer.ClientLimitNoticeLost` | frontend/js/websocket.js:28-33 | Once the renderer has removed the loading element, "client limit exceeded" only hides the canvas: no notice appears. |
| `PixelReducer.UpdateSetsCell` | frontend/js/websocket.js:46-51 | An in-range update with a one-character colour keeps the length and sets exactly that cell. |
| `PixelReducer.ReceiveTracksLastWrite` | frontend/js/websocket.js:46-56 | After any run of in-range one-character updates, every cell shows the colour of the last update aimed at it, or its starting colour. |
| `LegacyReducer.OnMessage` | frontend/websocket.js:19-49 | "rate limit exceeded" changes nothing. "client limit exceeded" only rewrites the loading text. `initial` hides the loading element and shows the canvas. Updates and other types change the pixels as in the current revision. Each case leaves every field it does not mention as it was. |
| `LegacyReducer.UpdateSetsCell` | frontend/websocket.js:37-42 | An in-range update with a one-character colour keeps the length and sets exactly that cell. |
| `LegacyReducer.SameCanvasAsCurrent` | frontend/websocket.js:19-49 | From the same pixels and count, every event leaves both handler revisions with the same pixels and count. |
| `LegacyReducer.ClientLimitKeepsCanvas` | frontend/websocket.js:24-27 | Unlike the current revision, "client limit exceeded" leaves the canvas displayed. |
| `JsString.Substring` | frontend/js/canvasRenderer.js:101-104 | `substring` clamps both bounds into the string and returns the characters between them, whichever bound is larger. |
| `JsString.Splice` | frontend/js/canvasRenderer.js:101-104 | Inside the string, the character at the index is replaced by the colour. Before the start the colour is prepended, and at or past the end it is appended. |
| `JsString.SpliceCell` | frontend/js/canvasRenderer.js:101-104 | A one-character colour at an index inside the string changes exactly that cell. |
| `JsString.SpliceLastWins` | frontend/js/websocket.js:46-51 | Of two writes to the same cell, the later one wins. |
| `JsString.SpliceCommute` | frontend/js/websocket.js:46-51 | Writes to different cells commute. |
| `CanvasRenderer.IsRateLimited` | frontend/js/canvasRenderer.js:121-138 | A click is limited exactly when 20 or more timestamps are under 5000 ms old, and the list is then left unpruned. Otherwise the list becomes those recent timestamps plus `now`, at most 20 entries. |
| `CanvasRenderer.UpdatePixel` | frontend/js/canvasRenderer.js:78-119 | These return with nothing changed: an index off the grid, a cell already of the selected colour, or a limited click. With the socket not open the click spends a limiter slot and nothing else. Otherwise the counter rises, the cell is spliced, and exactly that index and colour are sent. |
| `CanvasRenderer.SameColourSpendsNothing` | frontend/js/canvasRenderer.js:87-89 | Clicking a cell that already has the selected colour does not use a limiter slot. |
| `CanvasRenderer.ClosedSocketSpendsSlot` | frontend/js/canvasRenderer.js:91-97 | A click let through while the socket is closed sends nothing and keeps the pixels, but records a timestamp. |
| `CanvasRenderer.SentUpdateIsValid` | frontend/js/canvasRenderer.js:99-118 | A sent update with a palette colour passes the server's `validateIncomingMessage`. The local canvas changes exactly that cell. |
| `CanvasRenderer.PassedClicksWindow` | frontend/js/canvasRenderer.js:121-138 | Over successive clicks the limiter behaves as a window of 20 per 5000 ms that does not prune on refusal. |
| `CanvasRenderer.AtMostTwentyPerWindow` | frontend/js/canvasRenderer.js:121-138 | From a fresh renderer, with a clock that never goes back, the click let through 20 places after any other is at least 5000 ms later. |
| `ColorCounters.TallyCorrect` | frontend/js/colorCounters.js:10-12 | The counting map has one entry per distinct character, in order of first appearance. Each count is that character's number of occurrences, and the counts add up to the length. |
| `ColorCounters.SortByCountCorrect` | frontend/js/colorCounters.js:14-15 | The sort returns a permutation of its input, highest count first. It is stable: entries with equal counts keep their map order. |
| `ColorCounters.UpdateColorCounters` | frontend/js/colorCounters.js:19-45 | There is one row per sorted entry, showing its colour and count. The first three rows carry gold, silver and bronze stars, and the rest carry none. |
| `ColorCounters.CountersCorrect` | frontend/js/colorCounters.js:10-45 | The rows cover exactly the characters of the pixel string, each once, showing its number of occurrences, in non-increasing order. The first row's count is a maximum. |

## Left out

- Concurrency is not modelled. This covers goroutines, channels, `select` fairness, the `sync.Map`s and the per-entry mutexes. Each hub is a sequence of atomic steps, one per request its loop selects. Which request wins a `select` is the order the requests are given in.
- When `Run` starts with its context already cancelled while requests are waiting, Go's `select` may serve some of them before it notices the cancellation. The model lets `Run` exit at once, and a call made before `Run` blocks until then.
- `golang.org/x/time/rate` token buckets (one token per second, burst 5) are not modelled. The limiter's `Allow()` answer is an input to `ClientManager.Send` and `ServerHub.Broadcast`.
- Redis, JSON encoding and decoding, and websocket I/O are not modelled. Their outcomes are inputs: write or read success, the decoded message, and the set of failed writes. The "error marshaling json" paths cannot fail for these message shapes and are left out. In the hubs the fan-out visits the failed clients in Go's unspecified map order, given as a sequence.
- Logging, `client.Close()` on the socket, HTTP upgrade, hCaptcha verification, the CORS origin check, `.env` loading and `main` are not modelled. They are I/O with no state the core reads.
- backend/main.go `getIP` (lines 222-228) is not modelled. It uses `net.SplitHostPort`, a standard-library parser. The revision's rate limiter is modelled with the IP as an input.
- `Utils.GetIP` does not model the `netip.ParseAddrPort` parser or the connection's `AddrPort` method. Both are given as inputs.
- backend/rateLimit.go lines 30-32 start a sweep when `now.Unix() % 60 == 0`, in a new goroutine. `RateLimit.CleanupRateLimits` models the sweep itself. When it runs is left to the caller.
- The frontend geometry is not modelled. This covers the mouse-to-cell arithmetic, `Math.floor` on floats, offsets, zoom and drawing. `CanvasRenderer.UpdatePixel` takes the cell index as given.
- The `localStorage` pixel counter is not modelled. `#incrementPixelCount` stores a number parsed from local storage. The model keeps it as an integer in the renderer state and does not model `parseInt` of a foreign stored value.
- The DOM is not modelled: `redraw`, the colour-table lookup `colorMap[color]`, the counter's width percentage and the star glyph. `ColorCounters.UpdateColorCounters` yields the rows' colour key, count and star colour.
- JavaScript strings are sequences of UTF-16 code units, while `for … of` in colorCounters.js iterates code points. Both are modelled as `char` sequences, so the two readings agree only for the ASCII colours the server accepts.
- The `onerror` and `onclose` socket handlers are not modelled. They only change page text.
