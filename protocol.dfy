/**
 * The per-connection protocol of `Session`, as functions of the connection's
 * state: one `doRequest` call (`RequestStep`), one `doResponse` call (`Flush`),
 * and the properties that relate them to the wire format and to each other.
 * The class in module Sessions runs the same steps imperatively and is proved
 * to agree with these functions.
 */
module Protocol {
  import opened Optional
  import opened Wire
  import opened Frames
  import opened Store
  import opened Dispatch

  /** Every message expires 30 seconds after it was completed. */
  const Ttl: nat := 30 * 1000

  /** `_current_message`: the frame being received (or the last one received). */
  datatype Partial = Partial(command: U16, sequence: U64, body: seq<Byte>)

  /** An entry of `_message`: its expiry, the request, and the handler's reply once there is one. */
  datatype Pending = Pending(expire: nat, request: Request, response: Option<Reply>)

  /** The state `doRequest` and `doResponse` work on: `_message`, `_left_recved`, `_current_message`. */
  datatype Conn = Conn(message: Dict<Pending>, left: int, current: Partial)

  /** A `doRequest` call's new state and its return value (false asks the server to close the connection). */
  datatype Outcome = Outcome(conn: Conn, keep: bool)

  /**
   * The state every call keeps: a well-formed dictionary, a remaining count
   * that is never negative, and room for the declared length in the header's
   * u32 length field (remaining plus received is the declared length).
   */
  ghost predicate ConnValid(c: Conn) {
    Store.Valid(c.message) && 0 <= c.left && c.left + |c.current.body| < 0x1_0000_0000
  }

  function Initial(): (c: Conn)
    ensures ConnValid(c) && c.left == 0 && c.message.entries == map[]
  {
    Conn(Store.Empty(), 0, Partial(0, 0, []))
  }

  /**
   * What the reads of one call may return: `recv(n)` never returns more than
   * `n` bytes. While a body is incomplete the call makes one read of at most
   * the remaining count; otherwise it reads at most 16 header bytes and, if
   * they parse, at most the declared length of body.
   */
  ghost predicate ReadsFit(c: Conn, firstRead: seq<Byte>, secondRead: seq<Byte>) {
    if c.left > 0 then |firstRead| <= c.left
    else |firstRead| <= HeaderSize &&
         (ParseHeader(firstRead).Some? ==> |secondRead| <= ParseHeader(firstRead).value.length)
  }

  /**
   * A complete frame (Session.py lines 84-101): store a fresh entry under its
   * sequence, run the handler, then either drop the entry (the "ip is invalid"
   * answer) or record the reply in it.
   */
  function Complete(message: Dict<Pending>, processer: map<nat, Handler>, now: Millis, cur: Partial): (r: Outcome)
    requires Store.Valid(message) && |cur.body| < 0x1_0000_0000
    ensures ConnValid(r.conn) && r.conn.left == 0 && r.conn.current == cur
  {
    var req := Request(cur.command, cur.body);
    var added := Put(message, cur.sequence, Pending(now + Ttl, req, None));
    var reply := ProcessCommand(processer, cur.command, cur.sequence, req, now);
    if reply.data == Some(IpInvalid) then
      Outcome(Conn(Delete(added, cur.sequence), 0, cur), true)
    else
      Outcome(Conn(Put(added, cur.sequence, Pending(now + Ttl, req, Some(reply))), 0, cur), |cur.body| > 0)
  }

  /**
   * The entry a body continuation writes before completing (line 64) is the
   * one completion writes first (line 88), so writing it twice changes nothing.
   */
  lemma CompleteAfterEarlyPut(message: Dict<Pending>, processer: map<nat, Handler>, now: Millis, cur: Partial)
    requires Store.Valid(message) && |cur.body| < 0x1_0000_0000
    ensures var early := Put(message, cur.sequence, Pending(now + Ttl, Request(cur.command, cur.body), None));
      Complete(early, processer, now, cur) == Complete(message, processer, now, cur)
  {
    PutTwice(message, cur.sequence, Pending(now + Ttl, Request(cur.command, cur.body), None));
  }

  /** `doRequest` with a body under way (lines 55-68): append the chunk, count it off, complete at zero. */
  function ContinueStep(c: Conn, processer: map<nat, Handler>, now: Millis, chunk: seq<Byte>): (r: Outcome)
    requires ConnValid(c) && c.left > 0 && |chunk| <= c.left
    ensures ConnValid(r.conn)
    ensures r.conn.left + |r.conn.current.body| == c.left + |c.current.body|
  {
    var cur := c.current.(body := c.current.body + chunk);
    var left := c.left - |chunk|;
    if left > 0 then Outcome(Conn(c.message, left, cur), |chunk| > 0)
    else Complete(c.message, processer, now, cur)
  }

  /** `doRequest` awaiting a header (lines 70-82): parse it, then take what body came with it. */
  function HeaderStep(c: Conn, processer: map<nat, Handler>, now: Millis, header: seq<Byte>, body: seq<Byte>): (r: Outcome)
    requires ConnValid(c) && c.left <= 0 && ReadsFit(c, header, body)
    ensures ConnValid(r.conn)
    ensures ParseHeader(header).Some? ==> r.conn.left + |r.conn.current.body| == ParseHeader(header).value.length
  {
    match ParseHeader(header)
    case None => Outcome(c, false)
    case Some(h) =>
      var cur := Partial(h.command, h.sequence, body);
      var left := h.length - |body|;
      if left > 0 then Outcome(Conn(c.message, left, cur), |body| > 0)
      else Complete(c.message, processer, now, cur)
  }

  /** One `doRequest` call, given what its reads return. */
  function RequestStep(c: Conn, processer: map<nat, Handler>, now: Millis,
                       firstRead: seq<Byte>, secondRead: seq<Byte>): (r: Outcome)
    requires ConnValid(c) && ReadsFit(c, firstRead, secondRead)
    ensures ConnValid(r.conn)
  {
    if c.left > 0 then ContinueStep(c, processer, now, firstRead)
    else HeaderStep(c, processer, now, firstRead, secondRead)
  }

  // ---------------------------------------------------------------------------
  // Reassembly

  /** A read as the server sees it: the clock at that call and the bytes `recv` returned. */
  datatype Read = Read(now: Millis, bytes: seq<Byte>)

  /** The bytes of several reads, in order. */
  function Bytes(chunks: seq<Read>): seq<Byte>
  {
    if chunks == [] then [] else Bytes(chunks[..|chunks| - 1]) + chunks[|chunks| - 1].bytes
  }

  /**
   * `doRequest` called once per read while a body is under way, none
   * finishing it: the chunks pile up in order, the remaining count drops by
   * their total, and the message store is untouched.
   */
  function Feed(c: Conn, processer: map<nat, Handler>, chunks: seq<Read>): (r: Conn)
    requires ConnValid(c) && |Bytes(chunks)| < c.left
    ensures ConnValid(r) && r.left == c.left - |Bytes(chunks)|
    ensures r.current == c.current.(body := c.current.body + Bytes(chunks))
    ensures r.message == c.message
    decreases |chunks|
  {
    if chunks == [] then c
    else
      var mid := Feed(c, processer, chunks[..|chunks| - 1]);
      var last := chunks[|chunks| - 1];
      RequestStep(mid, processer, last.now, last.bytes, []).conn
  }

  /**
   * The counter keeps the declared length: after any call, nothing is owed
   * below zero, and remaining plus received is the length declared in the
   * header (the old total on a body read, the new header's length otherwise).
   */
  lemma RemainingCountInvariant(c: Conn, processer: map<nat, Handler>, now: Millis,
                                firstRead: seq<Byte>, secondRead: seq<Byte>)
    requires ConnValid(c) && ReadsFit(c, firstRead, secondRead)
    ensures var r := RequestStep(c, processer, now, firstRead, secondRead).conn;
      && 0 <= r.left
      && (c.left > 0 ==> r.left == c.left + |c.current.body| - |r.current.body|)
      && (c.left <= 0 && ParseHeader(firstRead).Some? ==>
            r.left == ParseHeader(firstRead).value.length - |r.current.body|)
      && (c.left <= 0 && ParseHeader(firstRead).None? ==> r == c)
  {
  }

  /** A read that leaves the body incomplete creates no entry and reports whether it got any byte. */
  lemma IncompleteReadStoresNothing(c: Conn, processer: map<nat, Handler>, now: Millis,
                                    firstRead: seq<Byte>, secondRead: seq<Byte>)
    requires ConnValid(c) && ReadsFit(c, firstRead, secondRead)
    requires RequestStep(c, processer, now, firstRead, secondRead).conn.left > 0
    ensures var r := RequestStep(c, processer, now, firstRead, secondRead);
      && r.conn.message == c.message
      && r.keep == if c.left > 0 then |firstRead| > 0 else |secondRead| > 0
  {
  }

  /**
   * A header shorter than 16 bytes, or one whose two magic bytes are both
   * wrong, ends the call with false before any body is read: the state
   * stays as it was, whatever the body read would have returned.
   */
  lemma BadHeaderRejected(c: Conn, processer: map<nat, Handler>, now: Millis, header: seq<Byte>, body: seq<Byte>)
    requires ConnValid(c) && c.left == 0 && |header| <= HeaderSize
    requires |header| < HeaderSize || (header[0] != MagicC && header[1] != MagicX)
    ensures ReadsFit(c, header, body)
    ensures RequestStep(c, processer, now, header, body) == Outcome(c, false)
  {
  }

  /**
   * Reassembly does not depend on how the body is split across chunks: a
   * header read with part of the body, any number of further chunks that do
   * not finish it, and a last read that does, leave the same state and return
   * the same value as one call that read header and whole body at once (at the
   * last read's clock). Until that last read nothing is stored.
   */
  lemma {:induction false} ReassemblyIsSplitIndependent(c: Conn, processer: map<nat, Handler>, start: Millis,
                                                       header: seq<Byte>, first: seq<Byte>,
                                                       chunks: seq<Read>, last: Read)
    requires ConnValid(c) && c.left == 0 && |header| <= HeaderSize && ParseHeader(header).Some?
    requires |first| + |Bytes(chunks)| < ParseHeader(header).value.length
    requires |first| + |Bytes(chunks)| + |last.bytes| == ParseHeader(header).value.length
    ensures ReadsFit(c, header, first)
    ensures ReadsFit(c, header, first + Bytes(chunks) + last.bytes)
    ensures var started := RequestStep(c, processer, start, header, first).conn;
      && started.left > 0 && started.message == c.message
      && |Bytes(chunks)| < started.left
      && var mid := Feed(started, processer, chunks);
      && mid.left == |last.bytes| && mid.message == c.message
      && RequestStep(mid, processer, last.now, last.bytes, [])
         == RequestStep(c, processer, last.now, header, first + Bytes(chunks) + last.bytes)
  {
    var h := ParseHeader(header).value;
    var started := RequestStep(c, processer, start, header, first).conn;
    assert started == Conn(c.message, h.length - |first|, Partial(h.command, h.sequence, first));
    var mid := Feed(started, processer, chunks);
    assert mid.current == Partial(h.command, h.sequence, first + Bytes(chunks));
    assert (first + Bytes(chunks)) + last.bytes == first + Bytes(chunks) + last.bytes;
  }

  /**
   * A completed frame replaces whatever was stored under its sequence with an
   * entry that expires 30 seconds on and holds the request and the handler's
   * reply, and reports whether the body was non-empty; on the "ip is invalid"
   * answer the entry is gone and the call reports true. No other key changes.
   */
  lemma CompletionStoresReply(message: Dict<Pending>, processer: map<nat, Handler>, now: Millis, cur: Partial)
    requires Store.Valid(message) && |cur.body| < 0x1_0000_0000
    ensures var r := Complete(message, processer, now, cur);
      var req := Request(cur.command, cur.body);
      var reply := ProcessCommand(processer, cur.command, cur.sequence, req, now);
      && (forall k :: k != cur.sequence ==>
            (k in r.conn.message.entries <==> k in message.entries) &&
            (k in message.entries ==> r.conn.message.entries[k] == message.entries[k]))
      && (reply.data == Some(IpInvalid) ==> cur.sequence !in r.conn.message.entries && r.keep)
      && (reply.data != Some(IpInvalid) ==>
            && cur.sequence in r.conn.message.entries
            && r.conn.message.entries[cur.sequence] == Pending(now + Ttl, req, Some(reply))
            && r.keep == (|cur.body| > 0))
  {
  }

  /** An unknown command leaves an entry holding `(False, None)`, which no flush will ever send. */
  lemma UnknownCommandIsNeverAnswered(message: Dict<Pending>, processer: map<nat, Handler>, now: Millis, cur: Partial)
    requires Store.Valid(message) && |cur.body| < 0x1_0000_0000 && cur.command !in processer
    ensures var r := Complete(message, processer, now, cur);
      && cur.sequence in r.conn.message.entries
      && r.conn.message.entries[cur.sequence] == Pending(now + Ttl, Request(cur.command, cur.body), Some(Reply(false, None)))
      && !Sendable(r.conn.message.entries[cur.sequence])
      && r.keep == (|cur.body| > 0)
  {
  }

  /**
   * A heartbeat frame `C X 2 0 42` with an empty body gets its reply stored,
   * yet the call returns false (the body is empty), so the server closes the
   * connection before the reply can be flushed.
   */
  lemma EmptyHeartbeatClosesConnection(c: Conn, now: Millis)
    requires ConnValid(c) && c.left == 0
    ensures var header := [MagicC, MagicX, 2, 0, 0, 0, 0, 0, 42, 0, 0, 0, 0, 0, 0, 0];
      var req := Request(HeartbeatCommand, []);
      && ReadsFit(c, header, [])
      && var r := RequestStep(c, map[HeartbeatCommand as nat := Heartbeat], now, header, []);
      && !r.keep
      && 42 in r.conn.message.entries
      && r.conn.message.entries[42] == Pending(now + Ttl, req, Some(Heartbeat(42, req, now)))
  {
    var header := [MagicC, MagicX, 2, 0, 0, 0, 0, 0, 42, 0, 0, 0, 0, 0, 0, 0];
    HeaderFields(header);
    DecimalTextOfU64(now);
    assert Heartbeat(42, Request(HeartbeatCommand, []), now).data != Some(IpInvalid) by {
      assert IpInvalid[0] == 105;
      assert AllDigits(DecimalText(now));
    }
  }

  // ---------------------------------------------------------------------------
  // Flushing responses

  /** `"response" in message and message["response"]["result"] and data is not None`. */
  predicate Sendable(p: Pending) {
    p.response.Some? && p.response.value.result && p.response.value.data.Some?
  }

  predicate Expired(p: Pending, now: Millis) {
    p.expire <= now
  }

  /** The frame `doResponse` packs for an answered entry: its command, its sequence, the reply data. */
  function ResponseFrame(sequence: U64, p: Pending): seq<Byte>
    requires Sendable(p)
  {
    PackFrame(p.request.command, sequence, p.response.value.data.value)
  }

  /** The last key of a duplicate-free snapshot is not among the keys before it. */
  lemma LastNotInPrefix(keys: seq<U64>)
    requires keys != []
    ensures forall x :: x in keys <==> x in keys[..|keys| - 1] || x == keys[|keys| - 1]
    ensures Distinct(keys) ==> keys[|keys| - 1] !in keys[..|keys| - 1] && Distinct(keys[..|keys| - 1])
  {
    var prefix := keys[..|keys| - 1];
    assert keys == prefix + [keys[|keys| - 1]];
    OccurrencesZero(prefix, keys[|keys| - 1]);
  }

  /** The keys, in order, whose entries are ready to send. */
  function SendableKeys(entries: map<U64, Pending>, keys: seq<U64>): (r: seq<U64>)
    ensures forall k :: k in r <==> k in keys && k in entries && Sendable(entries[k])
    ensures Distinct(keys) ==> Distinct(r)
  {
    if keys == [] then []
    else
      var k := keys[|keys| - 1];
      var rest := SendableKeys(entries, keys[..|keys| - 1]);
      LastNotInPrefix(keys);
      OccurrencesZero(rest, k);
      assert (rest + [k])[..|rest|] == rest;
      if k in entries && Sendable(entries[k]) then rest + [k] else rest
  }

  /** What a `doResponse` call leaves: the new store and the frames sent, in order. */
  datatype Flushed = Flushed(message: Dict<Pending>, frames: seq<seq<Byte>>)

  /** One iteration of the loop of `doResponse` (lines 106-117), on a key that is present. */
  function FlushKey(f: Flushed, k: U64, now: Millis): (r: Flushed)
    requires Store.Valid(f.message) && k in f.message.entries
    ensures Store.Valid(r.message)
    ensures r.message.entries == if Sendable(f.message.entries[k]) || Expired(f.message.entries[k], now)
                                 then f.message.entries - {k} else f.message.entries
  {
    var p := f.message.entries[k];
    if Sendable(p) then Flushed(Delete(f.message, k), f.frames + [ResponseFrame(k, p)])
    else if Expired(p, now) then Flushed(Delete(f.message, k), f.frames)
    else f
  }

  /**
   * `doResponse` over the key snapshot `keys` with the clock at `now`: each
   * answered entry is removed, whether or not it has expired; any other
   * expired entry is removed; the rest stays as it was.
   */
  function Flush(d: Dict<Pending>, keys: seq<U64>, now: Millis): (r: Flushed)
    requires Store.Valid(d) && Distinct(keys) && forall k :: k in keys ==> k in d.entries
    ensures Store.Valid(r.message)
    ensures forall k :: k in d.entries && k !in keys ==> k in r.message.entries
    decreases |keys|
  {
    if keys == [] then Flushed(d, [])
    else
      LastNotInPrefix(keys);
      FlushKey(Flush(d, keys[..|keys| - 1], now), keys[|keys| - 1], now)
  }

  /**
   * What a flush leaves: only entries it started with, unchanged; every key
   * outside the snapshot; and of the snapshot exactly the entries neither
   * answered nor expired.
   */
  lemma {:induction false} FlushEntries(d: Dict<Pending>, keys: seq<U64>, now: Millis)
    requires Store.Valid(d) && Distinct(keys) && forall k :: k in keys ==> k in d.entries
    ensures var r := Flush(d, keys, now);
      && (forall k :: k in r.message.entries ==> k in d.entries && r.message.entries[k] == d.entries[k])
      && (forall k :: k in d.entries && k !in keys ==> k in r.message.entries)
      && forall k :: k in keys ==>
        (k in r.message.entries <==> !Sendable(d.entries[k]) && !Expired(d.entries[k], now))
    decreases |keys|
  {
    if keys != [] {
      LastNotInPrefix(keys);
      FlushEntries(d, keys[..|keys| - 1], now);
    }
  }

  /** A flush that sends after earlier frames `earlier` appends to them what it would send alone. */
  lemma FlushKeyAfter(f: Flushed, k: U64, now: Millis, earlier: seq<seq<Byte>>)
    requires Store.Valid(f.message) && k in f.message.entries
    ensures var g := FlushKey(f, k, now);
      FlushKey(f.(frames := earlier + f.frames), k, now) == g.(frames := earlier + g.frames)
  {
    var p := f.message.entries[k];
    if Sendable(p) {
      assert (earlier + f.frames) + [ResponseFrame(k, p)] == earlier + (f.frames + [ResponseFrame(k, p)]);
    }
  }

  /** `doResponse`: a flush over the snapshot `list(d.keys())`, the dictionary's keys in insertion order. */
  function FlushAll(d: Dict<Pending>, now: Millis): (r: Flushed)
    requires Store.Valid(d)
    ensures Store.Valid(r.message)
  {
    ValidMeans(d);
    Flush(d, d.order, now)
  }

  /**
   * The first `i` passes of the loop of `doResponse` over `d`'s own order:
   * the keys not yet visited are all still present.
   */
  ghost function FlushUpTo(d: Dict<Pending>, i: nat, now: Millis): (r: Flushed)
    requires Store.Valid(d) && i <= |d.order|
    ensures Store.Valid(r.message)
    ensures forall j :: i <= j < |d.order| ==> d.order[j] in r.message.entries
    decreases i
  {
    ValidMeans(d);
    if i == 0 then Flushed(d, [])
    else
      DistinctIndices(d.order);
      FlushKey(FlushUpTo(d, i - 1, now), d.order[i - 1], now)
  }

  /** A prefix of a dictionary's order is a valid key snapshot. */
  lemma PrefixOfOrder(d: Dict<Pending>, i: nat)
    requires Store.Valid(d) && i <= |d.order|
    ensures Distinct(d.order[..i]) && forall k :: k in d.order[..i] ==> k in d.entries
  {
    ValidMeans(d);
    DistinctPrefix(d.order, i);
  }

  /** The loop's first `i` passes are the flush of the first `i` keys of the snapshot. */
  lemma {:induction false} FlushUpToIsFlush(d: Dict<Pending>, i: nat, now: Millis)
    requires Store.Valid(d) && i <= |d.order|
    ensures Distinct(d.order[..i]) && forall k :: k in d.order[..i] ==> k in d.entries
    ensures FlushUpTo(d, i, now) == Flush(d, d.order[..i], now)
  {
    PrefixOfOrder(d, i);
    if i > 0 {
      FlushUpToIsFlush(d, i - 1, now);
      assert d.order[..i][..i - 1] == d.order[..i - 1];
    }
  }

  /** All passes of the loop are `doResponse`'s flush. */
  lemma FlushUpToAll(d: Dict<Pending>, now: Millis)
    requires Store.Valid(d)
    ensures FlushUpTo(d, |d.order|, now) == FlushAll(d, now)
  {
    FlushUpToIsFlush(d, |d.order|, now);
    assert d.order[..|d.order|] == d.order;
  }

  /** The frames a flush sends are the response frames of the answered keys, in snapshot order. */
  lemma {:induction false} FlushFrames(d: Dict<Pending>, keys: seq<U64>, now: Millis)
    requires Store.Valid(d) && Distinct(keys) && forall k :: k in keys ==> k in d.entries
    ensures var r := Flush(d, keys, now); var sent := SendableKeys(d.entries, keys);
      && |r.frames| == |sent|
      && forall i :: 0 <= i < |sent| ==> r.frames[i] == ResponseFrame(sent[i], d.entries[sent[i]])
    decreases |keys|
  {
    if keys != [] {
      var k, prefix := keys[|keys| - 1], keys[..|keys| - 1];
      LastNotInPrefix(keys);
      FlushFrames(d, prefix, now);
      FlushEntries(d, prefix, now);
      var prev := Flush(d, prefix, now);
      assert Flush(d, keys, now) == FlushKey(prev, k, now);
      assert k in prev.message.entries && prev.message.entries[k] == d.entries[k];
      var before := SendableKeys(d.entries, prefix);
      if Sendable(d.entries[k]) {
        var sent, frame := before + [k], ResponseFrame(k, d.entries[k]);
        assert SendableKeys(d.entries, keys) == sent;
        assert Flush(d, keys, now).frames == prev.frames + [frame];
        forall i | 0 <= i < |sent|
          ensures (prev.frames + [frame])[i] == ResponseFrame(sent[i], d.entries[sent[i]])
        {
          if i < |before| {
            assert sent[i] == before[i];
          }
        }
      } else {
        assert SendableKeys(d.entries, keys) == before;
        assert Flush(d, keys, now).frames == prev.frames;
      }
    }
  }

  /** `f` is the response frame for the answered entry `p` stored under `k`, as a receiver parses it. */
  ghost predicate Answers(f: seq<Byte>, k: U64, p: Pending) {
    && Sendable(p)
    && ParseFrame(f) == Some(Frame(Header(p.request.command, k, |p.response.value.data.value|),
                                   p.response.value.data.value))
  }

  /**
   * Every answered entry of the snapshot is sent exactly once, and nothing
   * else is: the i-th frame parses to the command, sequence and reply data of
   * the i-th answered key, and the answered keys are exactly the snapshot's
   * keys whose reply is a success with data, each listed once.
   */
  lemma FlushAnswersEachOnce(d: Dict<Pending>, keys: seq<U64>, now: Millis)
    requires Store.Valid(d) && Distinct(keys) && forall k :: k in keys ==> k in d.entries
    ensures var r := Flush(d, keys, now); var sent := SendableKeys(d.entries, keys);
      && |r.frames| == |sent| && Distinct(sent)
      && (forall k :: k in sent <==> k in keys && Sendable(d.entries[k]))
      && forall i :: 0 <= i < |sent| ==> Answers(r.frames[i], sent[i], d.entries[sent[i]])
  {
    var r := Flush(d, keys, now);
    var sent := SendableKeys(d.entries, keys);
    FlushFrames(d, keys, now);
    forall i | 0 <= i < |sent| ensures Answers(r.frames[i], sent[i], d.entries[sent[i]]) {
      var p := d.entries[sent[i]];
      FrameRoundTrip(p.request.command, sent[i], p.response.value.data.value);
    }
  }

  /** An entry whose reply is not a success with data waits until it expires, and is then dropped unsent. */
  lemma UnansweredEntryWaitsForExpiry(d: Dict<Pending>, keys: seq<U64>, now: Millis, k: U64)
    requires Store.Valid(d) && Distinct(keys) && forall x :: x in keys ==> x in d.entries
    requires k in keys && !Sendable(d.entries[k])
    ensures var r := Flush(d, keys, now);
      && (k in r.message.entries <==> now < d.entries[k].expire)
      && (k in r.message.entries ==> r.message.entries[k] == d.entries[k])
      && forall i :: 0 <= i < |r.frames| ==> ParseFrame(r.frames[i]).Some? && ParseFrame(r.frames[i]).value.header.sequence != k
  {
    FlushAnswersEachOnce(d, keys, now);
    FlushEntries(d, keys, now);
    var r := Flush(d, keys, now);
    var sent := SendableKeys(d.entries, keys);
    forall i | 0 <= i < |r.frames|
      ensures ParseFrame(r.frames[i]).Some? && ParseFrame(r.frames[i]).value.header.sequence != k
    {
      assert Answers(r.frames[i], sent[i], d.entries[sent[i]]);
      assert sent[i] in sent;
    }
  }
}
