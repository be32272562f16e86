/** `ServerBase.read` / `write` / `write_error` (pyhelper.py): the event-driven server.

    Each `readyRead` notification runs `read` once over the bytes available at that
    moment (one "delivery").  `bytes_remaining` and `json_data` are locals of `read`, so
    nothing survives from one delivery to the next.  `QByteArray.toInt` and
    `json.loads` belong to the host and are parameters (`Env`). */
module Server {
  import opened Results
  import opened Text
  import opened Framing

  /** The reply dictionaries the server writes: `{"success": True}` and
      `{"success": False, "msg": msg}`. */
  datatype Reply = Success | Failure(msg: string)

  const InvalidHeaderMsg: string := "Invalid Header"

  /** Host behaviour `read` depends on: `toInt` is `QByteArray.toInt` (`None` when its
      validity flag is false) and `loads` says whether `json.loads` accepts a body. */
  datatype Env = Env(toInt: seq<byte> -> Option<int>, loads: seq<byte> -> bool)

  /** The replies written during one `read`, the bytes it left unread in the socket and
      the exception that escaped it, if any. */
  datatype ReadOutcome = ReadOutcome(replies: seq<Reply>, leftover: seq<byte>, raised: Option<PyError>)

  function Min(a: int, b: int): int {
    if a <= b then a else b
  }

  predicate AllSuccess(rs: seq<Reply>) {
    forall i :: 0 <= i < |rs| ==> rs[i] == Success
  }

  /** What one `read` may add to the replies: only `Success` replies, then at most one
      `Invalid Header` failure, which ends the call after discarding everything. */
  predicate WellFormedRun(added: seq<Reply>, out: ReadOutcome) {
    && (out.raised.None? ==> out.leftover == [])
    && (AllSuccess(added)
        || (added != [] && AllSuccess(added[..|added| - 1]) && added[|added| - 1] == Failure(InvalidHeaderMsg)
            && out.leftover == [] && out.raised.None?))
  }

  /** The `while self.socket.bytesAvailable()` loop of `read`, entered with `buf` available. */
  function ReadLoop(env: Env, buf: seq<byte>, remaining: int, json: seq<byte>, replies: seq<Reply>): (out: ReadOutcome)
    decreases |buf|, 1
    ensures |out.replies| >= |replies| && out.replies[..|replies|] == replies
    ensures WellFormedRun(out.replies[|replies|..], out)
    ensures |out.leftover| <= |buf| && out.leftover == buf[|buf| - |out.leftover|..]
  {
    if buf == [] then ReadOutcome(replies, [], None)
    else if remaining <= 0 then
      var header := buf[..Min(HeaderSize, |buf|)];
      var rest := buf[|header|..];
      match env.toInt(header)
      case None =>
        // write_error("Invalid Header"); readAll(); return
        ReadOutcome(replies + [Failure(InvalidHeaderMsg)], [], None)
      case Some(n) =>
        if n > 0 then ReadBody(env, rest, n, json, replies) else ReadLoop(env, rest, n, json, replies)
    else
      ReadBody(env, buf, remaining, json, replies)
  }

  /** The `if bytes_remaining > 0` block: read what is available of the body, decode it
      (ASCII), and reply once the body is complete. */
  function ReadBody(env: Env, buf: seq<byte>, remaining: int, json: seq<byte>, replies: seq<Reply>): (out: ReadOutcome)
    requires remaining > 0
    decreases |buf|, 0
    ensures |out.replies| >= |replies| && out.replies[..|replies|] == replies
    ensures WellFormedRun(out.replies[|replies|..], out)
    ensures |out.leftover| <= |buf| && out.leftover == buf[|buf| - |out.leftover|..]
  {
    if buf == [] then ReadOutcome(replies, [], None)
    else
      var piece := buf[..Min(remaining, |buf|)];
      var rest := buf[|piece|..];
      if !Ascii(piece) then ReadOutcome(replies, rest, Some(UnicodeDecodeError))
      else
        var json' := json + piece;
        var remaining' := remaining - |piece|;
        if remaining' == 0 then
          if !env.loads(json') then ReadOutcome(replies, rest, Some(ValueError))
          else
            var out := ReadLoop(env, rest, -1, [], replies + [Success]);
            SuccessThenRun(replies, out);
            out
        else
          ReadLoop(env, rest, remaining', json', replies)
  }

  /** A `Success` in front of a well-formed run keeps it well-formed. */
  lemma SuccessThenRun(replies: seq<Reply>, out: ReadOutcome)
    requires |out.replies| >= |replies| + 1 && out.replies[..|replies| + 1] == replies + [Success]
    requires WellFormedRun(out.replies[|replies| + 1..], out)
    ensures out.replies[..|replies|] == replies
    ensures WellFormedRun(out.replies[|replies|..], out)
  {
    var added := out.replies[|replies|..];
    var later := out.replies[|replies| + 1..];
    assert added == [Success] + later;
    assert out.replies[..|replies|] == (replies + [Success])[..|replies|];
    if !AllSuccess(later) {
      assert added[..|added| - 1] == [Success] + later[..|later| - 1];
    }
  }

  /** `ServerBase.read` over the bytes available when it is called. */
  function Read(env: Env, available: seq<byte>): ReadOutcome {
    ReadLoop(env, available, -1, [], [])
  }

  /** A connection's life: each delivery is read with fresh locals; only bytes left in the
      socket by an escaped exception are seen again, ahead of the next delivery. */
  function SessionFrom(env: Env, pending: seq<byte>, deliveries: seq<seq<byte>>): seq<Reply>
    decreases |deliveries|
  {
    if deliveries == [] then []
    else
      var out := Read(env, pending + deliveries[0]);
      out.replies + SessionFrom(env, out.leftover, deliveries[1..])
  }

  function Session(env: Env, deliveries: seq<seq<byte>>): seq<Reply> {
    SessionFrom(env, [], deliveries)
  }

  /** `write(reply)` given `json.dumps`: nothing goes out unless the socket is connected. */
  function WriteReply(dumps: Reply -> seq<byte>, connected: bool, r: Reply): seq<byte> {
    Write(connected, dumps(r))
  }

  /** The bytes a sequence of replies puts on the wire while connected. */
  function Wire(dumps: Reply -> seq<byte>, rs: seq<Reply>): (out: seq<byte>)
    ensures |out| >= HeaderSize * |rs|
  {
    if rs == [] then [] else WriteReply(dumps, true, rs[0]) + Wire(dumps, rs[1..])
  }

  // ------------------------------------------------------------ well-formed frames

  /** A frame the server can serve: a ten-byte header that `toInt` reads as the positive
      body length, an ASCII body, and a body `json.loads` accepts. */
  predicate ValidFrame(env: Env, header: seq<byte>, body: seq<byte>) {
    && |header| == HeaderSize
    && env.toInt(header) == Some(|body|)
    && |body| > 0
    && Ascii(body)
    && env.loads(body)
  }

  datatype Frame = Frame(header: seq<byte>, body: seq<byte>)

  function Concat(frames: seq<Frame>): seq<byte> {
    if frames == [] then [] else frames[0].header + frames[0].body + Concat(frames[1..])
  }

  function Successes(k: nat): (rs: seq<Reply>)
    ensures |rs| == k && AllSuccess(rs)
  {
    if k == 0 then [] else [Success] + Successes(k - 1)
  }

  /** How many bytes of the announced length are left is irrelevant while it is not positive. */
  lemma NonPositiveRemainingIrrelevant(env: Env, buf: seq<byte>, r1: int, r2: int, json: seq<byte>, replies: seq<Reply>)
    requires r1 <= 0 && r2 <= 0
    ensures ReadLoop(env, buf, r1, json, replies) == ReadLoop(env, buf, r2, json, replies)
  {
  }

  /** One well-formed frame at a header position earns exactly one `Success`. */
  lemma ReadOneFrame(env: Env, f: Frame, rest: seq<byte>, remaining: int, replies: seq<Reply>)
    requires ValidFrame(env, f.header, f.body) && remaining <= 0
    ensures ReadLoop(env, f.header + f.body + rest, remaining, [], replies)
         == ReadLoop(env, rest, -1, [], replies + [Success])
  {
    var buf := f.header + f.body + rest;
    assert buf[..HeaderSize] == f.header;
    assert buf[HeaderSize..] == f.body + rest;
    assert (f.body + rest)[..|f.body|] == f.body;
    assert (f.body + rest)[|f.body|..] == rest;
    assert [] + f.body == f.body;
    assert ReadLoop(env, buf, remaining, [], replies) == ReadBody(env, f.body + rest, |f.body|, [], replies);
  }

  /** Several well-formed frames in one delivery each get one `Success`, in order. */
  lemma {:induction false} ReadFrames(env: Env, frames: seq<Frame>, rest: seq<byte>, replies: seq<Reply>)
    requires forall i :: 0 <= i < |frames| ==> ValidFrame(env, frames[i].header, frames[i].body)
    ensures ReadLoop(env, Concat(frames) + rest, -1, [], replies)
         == ReadLoop(env, rest, -1, [], replies + Successes(|frames|))
  {
    if frames != [] {
      var f := frames[0];
      assert Concat(frames) + rest == f.header + f.body + (Concat(frames[1..]) + rest);
      ReadOneFrame(env, f, Concat(frames[1..]) + rest, -1, replies);
      ReadFrames(env, frames[1..], rest, replies + [Success]);
      assert replies + [Success] + Successes(|frames| - 1) == replies + Successes(|frames|);
    } else {
      assert Concat(frames) + rest == rest;
      assert replies + Successes(0) == replies;
    }
  }

  /** A delivery made of well-formed frames gets one `Success` per frame and nothing else. */
  lemma ReadWholeFrames(env: Env, frames: seq<Frame>)
    requires forall i :: 0 <= i < |frames| ==> ValidFrame(env, frames[i].header, frames[i].body)
    ensures Read(env, Concat(frames)) == ReadOutcome(Successes(|frames|), [], None)
  {
    ReadFrames(env, frames, [], []);
    assert Concat(frames) + [] == Concat(frames);
  }

  /** An invalid header after some well-formed frames: those frames are answered, then one
      `Invalid Header` failure is written and everything after the header is discarded. */
  lemma ReadInvalidHeader(env: Env, frames: seq<Frame>, bad: seq<byte>)
    requires forall i :: 0 <= i < |frames| ==> ValidFrame(env, frames[i].header, frames[i].body)
    requires bad != [] && env.toInt(bad[..Min(HeaderSize, |bad|)]) == None
    ensures Read(env, Concat(frames) + bad)
         == ReadOutcome(Successes(|frames|) + [Failure(InvalidHeaderMsg)], [], None)
  {
    ReadFrames(env, frames, bad, []);
    assert [] + Successes(|frames|) == Successes(|frames|);
    assert ReadLoop(env, bad, -1, [], Successes(|frames|))
        == ReadOutcome(Successes(|frames|) + [Failure(InvalidHeaderMsg)], [], None);
  }

  /** A valid header announcing zero (or less) produces no reply: reading resumes at the
      next ten bytes as a new header. */
  lemma ReadNonPositiveHeader(env: Env, header: seq<byte>, rest: seq<byte>)
    requires |header| == HeaderSize && env.toInt(header).Some? && env.toInt(header).value <= 0
    ensures Read(env, header + rest) == Read(env, rest)
  {
    var buf := header + rest;
    assert buf[..HeaderSize] == header;
    assert buf[HeaderSize..] == rest;
    NonPositiveRemainingIrrelevant(env, rest, env.toInt(header).value, -1, [], []);
  }

  /** The reply does not depend on the request: any accepted body earns the same `Success`. */
  lemma ReplyIgnoresRequest(env: Env, h1: seq<byte>, b1: seq<byte>, h2: seq<byte>, b2: seq<byte>)
    requires ValidFrame(env, h1, b1) && ValidFrame(env, h2, b2)
    ensures Read(env, h1 + b1).replies == Read(env, h2 + b2).replies == [Success]
  {
    ReadWholeFrames(env, [Frame(h1, b1)]);
    ReadWholeFrames(env, [Frame(h2, b2)]);
    assert Concat([Frame(h1, b1)]) == h1 + b1;
    assert Concat([Frame(h2, b2)]) == h2 + b2;
  }

  // ------------------------------------------------------ no state across deliveries

  /** A `read` that returned normally leaves nothing behind, so the next delivery is read
      exactly as if it were the first one. */
  lemma NoStateAcrossDeliveries(env: Env, first: seq<byte>, later: seq<seq<byte>>)
    requires Read(env, first).raised.None?
    ensures Session(env, [first] + later) == Read(env, first).replies + Session(env, later)
  {
    assert ([first] + later)[1..] == later;
    assert [] + first == first;
  }

  /** A frame whose body is split over two deliveries is not reassembled: the first
      delivery gets no reply and the second is parsed from a header position. */
  lemma SplitBodyNotReassembled(env: Env, header: seq<byte>, body: seq<byte>, k: nat)
    requires ValidFrame(env, header, body) && 0 < k < |body|
    ensures Read(env, header + body[..k]) == ReadOutcome([], [], None)
    ensures Session(env, [header + body[..k], body[k..]]) == Read(env, body[k..]).replies
  {
    var d1 := header + body[..k];
    SplitFirstPart(env, header, body, k);
    NoStateAcrossDeliveries(env, d1, [body[k..]]);
    assert [d1] + [body[k..]] == [d1, body[k..]];
    SessionOne(env, body[k..]);
  }

  lemma SplitFirstPart(env: Env, header: seq<byte>, body: seq<byte>, k: nat)
    requires ValidFrame(env, header, body) && 0 < k < |body|
    ensures Read(env, header + body[..k]) == ReadOutcome([], [], None)
  {
    var d1 := header + body[..k];
    assert d1[..HeaderSize] == header;
    assert d1[HeaderSize..] == body[..k];
    assert Ascii(body[..k]);
    ReadBodyPartial(env, body[..k], |body|, [], []);
  }

  /** A body still incomplete when the delivery runs out waits for bytes that this
      `read` will never see. */
  lemma ReadBodyPartial(env: Env, piece: seq<byte>, n: int, json: seq<byte>, replies: seq<Reply>)
    requires 0 < |piece| < n && Ascii(piece)
    ensures ReadBody(env, piece, n, json, replies) == ReadOutcome(replies, [], None)
  {
    assert piece[..Min(n, |piece|)] == piece;
    assert piece[|piece|..] == [];
  }

  /** A session of one delivery is one `read`. */
  lemma SessionOne(env: Env, d: seq<byte>)
    ensures Session(env, [d]) == Read(env, d).replies
  {
    assert [] + d == d;
    assert [d][1..] == [];
    var out := Read(env, d);
    assert SessionFrom(env, [], [d]) == out.replies + SessionFrom(env, out.leftover, []);
    assert out.replies + [] == out.replies;
  }
}
