/**
 * Command dispatch: a request as the handlers see it, their reply, the two
 * built-in handlers and `processCommand`'s lookup in the handler table.
 */
module Dispatch {
  import opened Optional
  import opened Wire

  /** Wall-clock milliseconds, `round(time.time() * 1000)`, taken to fit in 64 bits. */
  type Millis = n: nat | n < 0x1_0000_0000_0000_0000

  /** Text a frame can carry: its length must fit the header's u32 length field. */
  type Payload = s: seq<Byte> | |s| < 0x1_0000_0000

  /** `_message[sequence]['request']`. */
  datatype Request = Request(command: U16, body: Payload)

  /** What a handler returns, `(result, data)`; also what `_message[sequence]['response']` holds. */
  datatype Reply = Reply(result: bool, data: Option<Payload>)

  /**
   * A registered handler. The server calls it with the sequence only and the
   * handler reads the request stored under that sequence; here it is handed
   * that request, and the clock reading, directly.
   */
  type Handler = (U64, Request, Millis) -> Reply

  /** Command code of the built-in heartbeat. */
  const HeartbeatCommand: U16 := 0x02

  /** The handler answer "ip is invalid" (ASCII), which makes the server drop the message. */
  const IpInvalid: Payload := [105, 112, 32, 105, 115, 32, 105, 110, 118, 97, 108, 105, 100]

  /** `Session.echo`: answers with the request body. */
  function Echo(sequence: U64, req: Request, now: Millis): (r: Reply)
    ensures r.result && r.data == Some(req.body)
  {
    Reply(true, Some(req.body))
  }

  /** `Session.heartbeat`: answers with the current time in milliseconds, in decimal. */
  function Heartbeat(sequence: U64, req: Request, now: Millis): (r: Reply)
    ensures r.result && r.data.Some? && AllDigits(r.data.value) && DecimalValue(r.data.value) == now
  {
    DecimalTextOfU64(now);
    DecimalRoundTrip(now);
    Reply(true, Some(DecimalText(now)))
  }

  /** `Session.processCommand`: an unknown command answers `(False, None)`. */
  function ProcessCommand(processer: map<nat, Handler>, command: U16, sequence: U64, req: Request, now: Millis): Reply
  {
    if command !in processer then Reply(false, None)
    else processer[command](sequence, req, now)
  }

  /** Heartbeat answers never go backwards in time. */
  lemma HeartbeatMonotone(s1: U64, r1: Request, t1: Millis, s2: U64, r2: Request, t2: Millis)
    requires t1 <= t2
    ensures DecimalValue(Heartbeat(s1, r1, t1).data.value) <= DecimalValue(Heartbeat(s2, r2, t2).data.value)
  {
  }

  /** After a registration the command runs the handler registered last; other commands are unaffected. */
  lemma RegisterLastWins(processer: map<nat, Handler>, command: U16, first: Handler, last: Handler,
                         other: U16, sequence: U64, req: Request, now: Millis)
    requires other != command
    ensures ProcessCommand(processer[command := first][command := last], command, sequence, req, now)
         == last(sequence, req, now)
    ensures ProcessCommand(processer[command := last], other, sequence, req, now)
         == ProcessCommand(processer, other, sequence, req, now)
  {
  }

  /** With the table `init` installs, command 2 is the heartbeat and every other command is unknown. */
  lemma InitialTable(command: U16, sequence: U64, req: Request, now: Millis)
    ensures var t := map[HeartbeatCommand as nat := Heartbeat];
      ProcessCommand(t, command, sequence, req, now)
      == if command == HeartbeatCommand then Heartbeat(sequence, req, now) else Reply(false, None)
  {
  }
}
