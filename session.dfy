/**
 * `Session`: the state one TCP connection keeps between readiness events, and
 * the operations the event loop calls on it. Each method changes the fields
 * in place as the original does, and is proved to agree with the step
 * functions of module Protocol, whose properties are proved there.
 *
 * The socket is not an object here. What `recv` returns in a call is passed
 * in (`firstRead`, `secondRead`), the clock is the parameter `now`, and
 * `sent` collects the frames handed to `send`, in order.
 */
module Sessions {
  import opened Optional
  import opened Wire
  import opened Frames
  import opened Store
  import opened Dispatch
  import opened Protocol

  class Session {
    /** `_message`: pending messages by sequence, in insertion order. */
    var message: Dict<Pending>
    /** `_processer`: the handler for each command code. */
    var processer: map<nat, Handler>
    /** `_left_recved`: body bytes still owed by the frame under way. */
    var leftRecved: int
    /** `_current_message`: command, sequence and body received so far. */
    var current: Partial
    /** The frames sent on the connection so far. */
    var sent: seq<seq<Byte>>
    /** The length the header of the current frame declared. */
    ghost var declared: nat

    /** The remaining count is the declared length less what has arrived, and never negative. */
    ghost predicate Valid()
      reads this
    {
      ConnValid(State()) && leftRecved == declared - |current.body|
    }

    function State(): Conn
      reads this
    {
      Conn(message, leftRecved, current)
    }

    /** `Session.__init__`: no messages, no handlers, no frame under way. */
    constructor ()
      ensures Valid()
      ensures State() == Initial() && processer == map[] && sent == []
    {
      message := Store.Empty();
      processer := map[];
      leftRecved := 0;
      current := Partial(0, 0, []);
      sent := [];
      declared := 0;
    }

    /** `Session.register`: install `handler` for `command`, replacing any earlier one. */
    method Register(command: nat, handler: Handler)
      requires Valid()
      modifies this`processer
      ensures Valid()
      ensures processer == old(processer)[command := handler]
    {
      processer := processer[command := handler];
    }

    /** `Session.init` (run by `doConnect`): register the heartbeat handler for command 2. */
    method Init()
      requires Valid()
      modifies this`processer
      ensures Valid()
      ensures processer == old(processer)[HeartbeatCommand as nat := Heartbeat]
    {
      Register(HeartbeatCommand as nat, Heartbeat);
    }

    /**
     * `Session.doRequest`. `firstRead` is what the first `recv` of the call
     * returned: the next body chunk while a body is under way, the header
     * otherwise; `secondRead` is what the body `recv` after a header returned
     * (unused on a body continuation). False asks the server to close.
     */
    method DoRequest(now: Millis, firstRead: seq<Byte>, secondRead: seq<Byte>) returns (keep: bool)
      requires Valid() && ReadsFit(State(), firstRead, secondRead)
      modifies this`message, this`leftRecved, this`current, this`declared
      ensures Valid()
      ensures Outcome(State(), keep) == RequestStep(old(State()), processer, now, firstRead, secondRead)
      ensures old(leftRecved) > 0 ==> declared == old(declared)
      ensures old(leftRecved) <= 0 && ParseHeader(firstRead).Some? ==> declared == ParseHeader(firstRead).value.length
    {
      if leftRecved > 0 {
        keep := ContinueBody(now, firstRead);
      } else {
        keep := NewRequest(now, firstRead, secondRead);
      }
    }

    /** `doRequest` with a body under way (lines 55-68): append the chunk `msg`, count it off, complete at zero. */
    method ContinueBody(now: Millis, msg: seq<Byte>) returns (keep: bool)
      requires Valid() && leftRecved > 0 && |msg| <= leftRecved
      modifies this`message, this`leftRecved, this`current
      ensures Valid()
      ensures Outcome(State(), keep) == ContinueStep(old(State()), processer, now, msg)
    {
      ghost var before := State();
      current := current.(body := current.body + msg);
      leftRecved := leftRecved - |msg|;
      var sequence := current.sequence;
      if leftRecved > 0 {
        return |msg| > 0;
      }
      ghost var done := Complete(message, processer, now, current);
      assert ContinueStep(before, processer, now, msg) == done;
      CompleteAfterEarlyPut(message, processer, now, current);
      message := Put(message, sequence, Pending(now + Ttl, Request(current.command, current.body), None));
      keep := Process(now);
      assert Outcome(State(), keep) == done;
    }

    /** `doRequest` awaiting a header (lines 70-82): parse `header`, then take the `body` read with it. */
    method NewRequest(now: Millis, header: seq<Byte>, body: seq<Byte>) returns (keep: bool)
      requires Valid() && leftRecved <= 0 && ReadsFit(State(), header, body)
      modifies this`message, this`leftRecved, this`current, this`declared
      ensures Valid()
      ensures Outcome(State(), keep) == HeaderStep(old(State()), processer, now, header, body)
      ensures ParseHeader(header).Some? ==> declared == ParseHeader(header).value.length
    {
      var parsed := ParseHeader(header);
      if parsed.None? {
        return false;
      }
      current := Partial(parsed.value.command, parsed.value.sequence, body);
      declared := parsed.value.length;
      leftRecved := parsed.value.length - |body|;
      if leftRecved > 0 {
        return |body| > 0;
      }
      keep := Process(now);
    }

    /** The end of `doRequest` (lines 84-101): store the complete frame, run its handler, keep or drop the entry. */
    method Process(now: Millis) returns (keep: bool)
      requires Valid() && leftRecved == 0
      modifies this`message
      ensures Valid()
      ensures Outcome(State(), keep) == Complete(old(message), processer, now, current)
    {
      var sequence, body, command := current.sequence, current.body, current.command;
      var request := Request(command, body);
      message := Put(message, sequence, Pending(now + Ttl, request, None));
      var reply := ProcessCommand(processer, command, sequence, request, now);
      if reply.data == Some(IpInvalid) {
        message := Delete(message, sequence);
        return true;
      }
      message := Put(message, sequence, Pending(now + Ttl, request, Some(reply)));
      keep := |body| > 0;
    }

    /**
     * `Session.doResponse`: walk a snapshot of the keys; send and remove each
     * answered entry, remove any other expired one.
     */
    method DoResponse(now: Millis)
      requires Valid()
      modifies this`message, this`sent
      ensures Valid()
      ensures var f := FlushAll(old(message), now);
        message == f.message && sent == old(sent) + f.frames
    {
      var keys := message.order;
      ghost var start, earlier := message, sent;
      ghost var done := Flushed(start, []);
      var i := 0;
      while i < |keys|
        invariant 0 <= i <= |keys| && keys == start.order && Store.Valid(start)
        invariant done == FlushUpTo(start, i, now)
        invariant message == done.message && sent == earlier + done.frames
      {
        FlushKeyAfter(done, keys[i], now, earlier);
        FlushEntry(keys[i], now);
        done := FlushKey(done, keys[i], now);
        i := i + 1;
      }
      FlushUpToAll(start, now);
    }

    /** One pass of the loop of `doResponse` (lines 106-117), on the key `sequence`. */
    method FlushEntry(sequence: U64, now: Millis)
      requires Store.Valid(message) && sequence in message.entries
      modifies this`message, this`sent
      ensures Flushed(message, sent) == FlushKey(old(Flushed(message, sent)), sequence, now)
    {
      var m := message.entries[sequence];
      if Sendable(m) {
        var frame := ResponseFrame(sequence, m);
        sent := sent + [frame];
        message := Delete(message, sequence);
      } else if Expired(m, now) {
        message := Delete(message, sequence);
      }
    }
  }
}
