/**
 The message shapes exchanged between the browser and the Go backend
 (backend/models.go), already decoded from JSON, and the frames a hub
 writes to one socket.
 */
module Messages {
  import opened Wrappers

  /** One cell change: its index in the 100 x 100 grid and its colour digit. */
  datatype UpdatedColor = UpdatedColor(index: int, color: string)

  /** Browser -> server: `{type, data: {index, color}}`. */
  datatype IncomingMessage = IncomingMessage(kind: string, data: UpdatedColor)

  /** Server -> browser broadcast: `{type, data: {index, color}, clientCount}`. */
  datatype OutgoingMessage = OutgoingMessage(kind: string, data: UpdatedColor, clientCount: int)

  /** What a hub writes to one socket: a plain-text notice or an encoded update. */
  datatype Frame = Text(text: string) | Broadcast(msg: OutgoingMessage)

  /** One frame written to one socket: the receiving connection and what was written. */
  datatype Delivery<C, F> = Delivery(to: C, frame: F)

  const RateLimitExceeded: string := "rate limit exceeded"
  const ClientLimitExceeded: string := "client limit exceeded"
  const InvalidInputType: string := "Invalid input type"

  /**
   A server frame as the browser's `JSON.parse` sees it: `initial` carries the
   whole canvas, `update` one cell, and any other `type` is kept with the
   `clientCount` it may carry.
   */
  datatype ServerMessage =
    | Initial(data: string, clientCount: int)
    | Update(index: int, color: string, clientCount: int)
    | OtherType(kind: string, count: Option<int>)

  /** A socket `message` event: its text, and what `JSON.parse` makes of it (`None` when it throws). */
  datatype Event = Event(text: string, parsed: Option<ServerMessage>)
}
