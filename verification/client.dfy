/** `ClientBase.send` / `ClientBase.recv` (pyhelper.py): the blocking client side.

    The socket is modelled by the byte stream the server has sent (`stream`) and a
    schedule: entry k of `schedule` is the most bytes the transport hands over on the
    k-th pass of the timeout loop (0 models a `recv` that raised because nothing had
    arrived, or returned nothing).  The length of the schedule stands for the timeout. */
module Client {
  import opened Results
  import opened Text
  import opened Framing

  function Min(a: int, b: int): int {
    if a <= b then a else b
  }

  /** The locals of `recv` between two passes of its loop.  `acc` is the join of
      `total_data`; `consumed` counts the bytes taken off the socket so far. */
  datatype RecvState = RecvState(acc: seq<byte>, replyLength: int, remaining: int, consumed: nat)

  /** The locals on entry: nothing read, `HEADER_SIZE` bytes wanted, no reply length yet. */
  const Initial: RecvState := RecvState([], 0, HeaderSize, 0)

  datatype RecvOutcome<M> = RecvOutcome(result: Result<M>, consumed: nat)

  datatype Step<M> = Continue(next: RecvState) | Return(outcome: RecvOutcome<M>)

  /** The largest size Python 2's `socket.recv` accepts: it reads its argument as a C
      `int`, and a larger one raises `OverflowError`. */
  const MaxRecvSize: int := 0x7FFF_FFFF

  /** A size `recv` can ask for and get bytes: positive and within a C `int`. */
  predicate Requestable(k: int) {
    0 < k <= MaxRecvSize
  }

  /** What one `client_socket.recv(bytes_remaining)` returns.  A request of 0 bytes
      returns nothing, a negative one raises `ValueError` and one beyond a C `int` raises
      `OverflowError`; the loop swallows both, so nothing is taken.  Otherwise at most
      `bytes_remaining` bytes are taken. */
  function Received(stream: seq<byte>, st: RecvState, grant: nat): (data: seq<byte>)
    requires st.consumed <= |stream|
    ensures |data| <= grant
    ensures !Requestable(st.remaining) ==> data == []
    ensures st.remaining > 0 ==> |data| <= st.remaining
    ensures st.consumed + |data| <= |stream| && data == stream[st.consumed..st.consumed + |data|]
    ensures Requestable(st.remaining) && grant > 0 && st.consumed < |stream| ==> data != []
  {
    if !Requestable(st.remaining) then []
    else stream[st.consumed..st.consumed + Min(Min(grant, st.remaining), |stream| - st.consumed)]
  }

  /** `json.loads` of a complete body; malformed JSON raises `ValueError`. */
  function Loads<M>(decode: seq<byte> -> Option<M>, body: seq<byte>): Result<M> {
    match decode(body)
    case None => Err(ValueError)
    case Some(m) => Ok(m)
  }

  /** One pass of the loop in `recv`. */
  function RecvStep<M>(decode: seq<byte> -> Option<M>, stream: seq<byte>, st: RecvState, grant: nat): (s: Step<M>)
    requires st.consumed <= |stream|
    ensures s.Continue? ==> s.next.consumed <= |stream|
  {
    Arrived(decode, st, Received(stream, st, grant))
  }

  /** The rest of a pass once `data` has come off the socket: keep reading, parse the
      completed header, or decode the completed body. */
  function Arrived<M>(decode: seq<byte> -> Option<M>, st: RecvState, data: seq<byte>): (s: Step<M>)
    ensures s.Continue? ==> s.next.consumed <= st.consumed + |data|
  {
    if data == [] then Continue(st)
    else
      var acc := st.acc + data;
      var remaining := st.remaining - |data|;
      var consumed := st.consumed + |data|;
      if remaining > 0 then Continue(RecvState(acc, st.replyLength, remaining, consumed))
      else if !Ascii(acc) then Return(RecvOutcome(Err(UnicodeDecodeError), consumed))
      else if st.replyLength == 0 then HeaderRead(acc, consumed)
      else
        Return(RecvOutcome(Loads(decode, acc), consumed))
  }

  /** The header has arrived: `int()` of its text is the body length to read next. */
  function HeaderRead<M>(header: seq<byte>, consumed: nat): (s: Step<M>)
    requires Ascii(header)
    ensures s.Continue? ==> s.next.consumed == consumed
  {
    match PyIntUnicode(Decode(header))
    case None => Return(RecvOutcome(Err(ValueError), consumed))
    case Some(n) => Continue(RecvState([], n, n, consumed))
  }

  function RecvLoop<M>(decode: seq<byte> -> Option<M>, stream: seq<byte>, st: RecvState, schedule: seq<nat>): RecvOutcome<M>
    requires st.consumed <= |stream|
    decreases |schedule|
  {
    if schedule == [] then RecvOutcome(Err(RuntimeError), st.consumed)
    else
      match RecvStep(decode, stream, st, schedule[0])
      case Continue(next) => RecvLoop(decode, stream, next, schedule[1..])
      case Return(outcome) => outcome
  }

  /** `ClientBase.recv`. */
  function Recv<M>(decode: seq<byte> -> Option<M>, stream: seq<byte>, schedule: seq<nat>): RecvOutcome<M> {
    RecvLoop(decode, stream, Initial, schedule)
  }

  /** The number of loop passes on which the transport offered at least one byte. */
  function Progress(schedule: seq<nat>): nat {
    if schedule == [] then 0 else (if schedule[0] > 0 then 1 else 0) + Progress(schedule[1..])
  }

  // ------------------------------------------------------ reference reading

  /** Reference reading of the first frame of `stream`, independent of any chunking:
      `None` when no complete frame can ever be read (too few bytes, or an announced
      length `recv` cannot request), otherwise the result `recv` owes and how many bytes
      that frame occupies. */
  function FirstFrame<M>(decode: seq<byte> -> Option<M>, stream: seq<byte>): Option<RecvOutcome<M>> {
    if |stream| < HeaderSize then None
    else
      var header := stream[..HeaderSize];
      if !Ascii(header) then Some(RecvOutcome(Err(UnicodeDecodeError), HeaderSize))
      else
        match PyIntUnicode(Decode(header))
        case None => Some(RecvOutcome(Err(ValueError), HeaderSize))
        case Some(n) =>
          if !Requestable(n) || |stream| < HeaderSize + n then None
          else
            var body := stream[HeaderSize..HeaderSize + n];
            Some(RecvOutcome(Owed(decode, body), HeaderSize + n))
  }

  /** How far `recv` may read into `stream`: the announced frame, or just the header when
      the announced length cannot be requested. */
  function Extent(stream: seq<byte>): nat {
    if |stream| < HeaderSize then |stream|
    else
      var header := stream[..HeaderSize];
      if !Ascii(header) then HeaderSize
      else
        match PyIntUnicode(Decode(header))
        case None => HeaderSize
        case Some(n) => if !Requestable(n) then HeaderSize else Min(HeaderSize + n, |stream|)
  }

  // ---------------------------------------------------------- loop phases

  ghost predicate BodyPhase(stream: seq<byte>, st: RecvState, n: int) {
    && Requestable(n)
    && st.replyLength == n
    && st.consumed == HeaderSize + |st.acc|
    && st.consumed <= |stream|
    && st.acc == stream[HeaderSize..st.consumed]
    && st.remaining == n - |st.acc| > 0
  }

  ghost predicate HeaderPhase(stream: seq<byte>, st: RecvState) {
    && st.replyLength == 0
    && st.consumed < HeaderSize
    && st.consumed <= |stream|
    && st.acc == stream[..st.consumed]
    && st.remaining == HeaderSize - st.consumed
  }

  /** After a header announcing a length that is not positive or beyond a C `int`,
      every `recv` call takes nothing and the loop spins until the timeout. */
  lemma {:induction false} StuckTimesOut<M>(decode: seq<byte> -> Option<M>, stream: seq<byte>, st: RecvState, schedule: seq<nat>)
    requires st.consumed <= |stream| && !Requestable(st.remaining)
    ensures RecvLoop(decode, stream, st, schedule) == RecvOutcome(Err(RuntimeError), st.consumed)
  {
    if schedule != [] {
      StuckTimesOut(decode, stream, st, schedule[1..]);
    }
  }

  /** What `recv` owes once the whole body has arrived. */
  function Owed<M>(decode: seq<byte> -> Option<M>, body: seq<byte>): Result<M> {
    if Ascii(body) then Loads(decode, body) else Err(UnicodeDecodeError)
  }

  /** The outcome `recv` owes once the loop leaves a body phase for length `n`: it stays
      within the frame and either times out or returns what the whole body decodes to. */
  ghost predicate BodyOutcome<M>(decode: seq<byte> -> Option<M>, stream: seq<byte>, st: RecvState, n: int, out: RecvOutcome<M>)
    requires n > 0
  {
    && st.consumed <= out.consumed <= Min(HeaderSize + n, |stream|)
    && (out.result == Err(RuntimeError) ||
          (|stream| >= HeaderSize + n && out == RecvOutcome(Owed(decode, stream[HeaderSize..HeaderSize + n]), HeaderSize + n)))
  }

  lemma {:induction false} BodyLoop<M>(decode: seq<byte> -> Option<M>, stream: seq<byte>, st: RecvState, n: int, schedule: seq<nat>)
    requires BodyPhase(stream, st, n)
    decreases |schedule|
    ensures BodyOutcome(decode, stream, st, n, RecvLoop(decode, stream, st, schedule))
  {
    if schedule != [] {
      var next := BodyPass(decode, stream, st, n, schedule);
      if next.Some? {
        BodyLoop(decode, stream, next.value, n, schedule[1..]);
        BodyOutcomeFrom(decode, stream, st, next.value, n, RecvLoop(decode, stream, next.value, schedule[1..]));
      }
    }
  }

  /** An outcome owed from a later body state is owed from an earlier one. */
  lemma BodyOutcomeFrom<M>(decode: seq<byte> -> Option<M>, stream: seq<byte>, st: RecvState, later: RecvState, n: int, out: RecvOutcome<M>)
    requires n > 0 && st.consumed <= later.consumed
    requires BodyOutcome(decode, stream, later, n, out)
    ensures BodyOutcome(decode, stream, st, n, out)
  {
  }

  lemma {:induction false} BodyLoopComplete<M>(decode: seq<byte> -> Option<M>, stream: seq<byte>, st: RecvState, n: int, schedule: seq<nat>)
    requires BodyPhase(stream, st, n)
    requires |stream| >= HeaderSize + n && Progress(schedule) >= HeaderSize + n - st.consumed
    decreases |schedule|
    ensures RecvLoop(decode, stream, st, schedule) == RecvOutcome(Owed(decode, stream[HeaderSize..HeaderSize + n]), HeaderSize + n)
  {
    var next := BodyPass(decode, stream, st, n, schedule);
    if next.Some? {
      BodyLoopComplete(decode, stream, next.value, n, schedule[1..]);
    }
  }

  /** One pass in the body phase: the loop either stays in that phase, never going back
      and moving on whenever bytes are offered, or returns what the whole body decodes to. */
  lemma BodyPass<M>(decode: seq<byte> -> Option<M>, stream: seq<byte>, st: RecvState, n: int, schedule: seq<nat>)
      returns (next: Option<RecvState>)
    requires BodyPhase(stream, st, n) && schedule != []
    ensures next.Some? ==>
      && BodyPhase(stream, next.value, n)
      && st.consumed <= next.value.consumed
      && (schedule[0] > 0 && st.consumed < |stream| ==> st.consumed < next.value.consumed)
      && RecvLoop(decode, stream, st, schedule) == RecvLoop(decode, stream, next.value, schedule[1..])
    ensures next.None? ==>
      && |stream| >= HeaderSize + n
      && RecvLoop(decode, stream, st, schedule) == RecvOutcome(Owed(decode, stream[HeaderSize..HeaderSize + n]), HeaderSize + n)
  {
    var data := Received(stream, st, schedule[0]);
    if data == [] {
      PassIdle(decode, stream, st, schedule);
      next := Some(st);
    } else {
      var acc := st.acc + data;
      var consumed := st.consumed + |data|;
      SliceJoin(stream, HeaderSize, st.consumed, consumed);
      if st.remaining - |data| > 0 {
        PassPartial(decode, stream, st, schedule, data);
        next := Some(RecvState(acc, n, st.remaining - |data|, consumed));
      } else {
        assert consumed == HeaderSize + n;
        PassBodyDone(decode, stream, st, schedule, data);
        next := None;
      }
    }
  }

  // One pass of the loop, case by case.

  /** A pass on which nothing arrives leaves the locals as they were. */
  lemma PassIdle<M>(decode: seq<byte> -> Option<M>, stream: seq<byte>, st: RecvState, schedule: seq<nat>)
    requires st.consumed <= |stream| && schedule != []
    requires Received(stream, st, schedule[0]) == []
    ensures RecvLoop(decode, stream, st, schedule) == RecvLoop(decode, stream, st, schedule[1..])
  {
  }

  /** A pass that takes some bytes but not all that are wanted. */
  lemma PassPartial<M>(decode: seq<byte> -> Option<M>, stream: seq<byte>, st: RecvState, schedule: seq<nat>, data: seq<byte>)
    requires st.consumed <= |stream| && schedule != []
    requires data == Received(stream, st, schedule[0]) && data != [] && st.remaining - |data| > 0
    ensures RecvLoop(decode, stream, st, schedule) ==
      RecvLoop(decode, stream, RecvState(st.acc + data, st.replyLength, st.remaining - |data|, st.consumed + |data|), schedule[1..])
  {
    PassContinue(decode, stream, st, schedule, RecvState(st.acc + data, st.replyLength, st.remaining - |data|, st.consumed + |data|));
  }

  /** The pass that completes the body returns what the accumulated body decodes to. */
  lemma PassBodyDone<M>(decode: seq<byte> -> Option<M>, stream: seq<byte>, st: RecvState, schedule: seq<nat>, data: seq<byte>)
    requires st.consumed <= |stream| && schedule != [] && st.replyLength != 0
    requires data == Received(stream, st, schedule[0]) && data != [] && st.remaining - |data| <= 0
    ensures RecvLoop(decode, stream, st, schedule) == RecvOutcome(Owed(decode, st.acc + data), st.consumed + |data|)
  {
  }

  /** The pass that completes a header holding an integer starts the body. */
  lemma PassHeaderDone<M>(decode: seq<byte> -> Option<M>, stream: seq<byte>, st: RecvState, schedule: seq<nat>, data: seq<byte>, n: int)
    requires st.consumed <= |stream| && schedule != [] && st.replyLength == 0
    requires data == Received(stream, st, schedule[0]) && data != [] && st.remaining - |data| <= 0
    requires Ascii(st.acc + data) && PyIntUnicode(Decode(st.acc + data)) == Some(n)
    ensures RecvLoop(decode, stream, st, schedule) == RecvLoop(decode, stream, RecvState([], n, n, st.consumed + |data|), schedule[1..])
  {
    StepHeaderDone(decode, stream, st, schedule[0], data, n);
    PassContinue(decode, stream, st, schedule, RecvState([], n, n, st.consumed + |data|));
  }

  lemma StepHeaderDone<M>(decode: seq<byte> -> Option<M>, stream: seq<byte>, st: RecvState, grant: nat, data: seq<byte>, n: int)
    requires st.consumed <= |stream| && st.replyLength == 0
    requires data == Received(stream, st, grant) && data != [] && st.remaining - |data| <= 0
    requires Ascii(st.acc + data) && PyIntUnicode(Decode(st.acc + data)) == Some(n)
    ensures RecvStep(decode, stream, st, grant) == Continue(RecvState([], n, n, st.consumed + |data|))
  {
    ArrivedHeaderDone<M>(decode, st, data, n);
  }

  lemma ArrivedHeaderDone<M>(decode: seq<byte> -> Option<M>, st: RecvState, data: seq<byte>, n: int)
    requires st.replyLength == 0 && data != [] && st.remaining - |data| <= 0
    requires Ascii(st.acc + data) && PyIntUnicode(Decode(st.acc + data)) == Some(n)
    ensures Arrived(decode, st, data) == Continue(RecvState([], n, n, st.consumed + |data|))
  {
    ArrivedHeader(decode, st, data);
    HeaderReadLength<M>(st.acc + data, st.consumed + |data|, n);
  }

  lemma ArrivedHeader<M>(decode: seq<byte> -> Option<M>, st: RecvState, data: seq<byte>)
    requires st.replyLength == 0 && data != [] && st.remaining - |data| <= 0
    requires Ascii(st.acc + data)
    ensures Arrived(decode, st, data) == HeaderRead(st.acc + data, st.consumed + |data|)
  {
  }

  lemma HeaderReadLength<M>(header: seq<byte>, consumed: nat, n: int)
    requires Ascii(header) && PyIntUnicode(Decode(header)) == Some(n)
    ensures HeaderRead<M>(header, consumed) == Continue(RecvState([], n, n, consumed))
  {
  }

  lemma PassContinue<M>(decode: seq<byte> -> Option<M>, stream: seq<byte>, st: RecvState, schedule: seq<nat>, next: RecvState)
    requires st.consumed <= |stream| && schedule != []
    requires RecvStep(decode, stream, st, schedule[0]) == Continue(next)
    ensures RecvLoop(decode, stream, st, schedule) == RecvLoop(decode, stream, next, schedule[1..])
  {
  }

  lemma SliceJoin(s: seq<byte>, a: nat, b: nat, c: nat)
    requires a <= b <= c <= |s|
    ensures s[a..b] + s[b..c] == s[a..c]
  {
  }

  /** What `recv` may return for `stream`: never beyond the first frame, and either the
      timeout or the reference reading. */
  ghost predicate FrameOutcome<M>(decode: seq<byte> -> Option<M>, stream: seq<byte>, out: RecvOutcome<M>) {
    && out.consumed <= Extent(stream)
    && (out.result == Err(RuntimeError) || FirstFrame(decode, stream) == Some(out))
  }

  /** The header `stream[..HeaderSize]` holds the integer `n`. */
  ghost predicate HeaderHolds(stream: seq<byte>, n: int) {
    |stream| >= HeaderSize && Ascii(stream[..HeaderSize]) && PyIntUnicode(Decode(stream[..HeaderSize])) == Some(n)
  }

  /** The state right after a header holding `n` was read. */
  ghost predicate Started(stream: seq<byte>, st: RecvState) {
    HeaderHolds(stream, st.replyLength) && st == RecvState([], st.replyLength, st.replyLength, HeaderSize)
  }

  /** From the state right after the header: stuck on a length that cannot be requested,
      or reading the body. */
  lemma AfterHeader<M>(decode: seq<byte> -> Option<M>, stream: seq<byte>, st: RecvState, schedule: seq<nat>)
    requires Started(stream, st)
    ensures FrameOutcome(decode, stream, RecvLoop(decode, stream, st, schedule))
  {
    var n := st.replyLength;
    assert stream[HeaderSize..HeaderSize] == [];
    if Requestable(n) {
      BodyLoop(decode, stream, st, n, schedule);
    } else {
      StuckTimesOut(decode, stream, st, schedule);
    }
  }

  /** From the state right after the header, with enough progress for the body. */
  lemma AfterHeaderComplete<M>(decode: seq<byte> -> Option<M>, stream: seq<byte>, st: RecvState, schedule: seq<nat>)
    requires Started(stream, st) && FirstFrame(decode, stream).Some?
    requires Progress(schedule) >= FirstFrame(decode, stream).value.consumed - HeaderSize
    ensures RecvLoop(decode, stream, st, schedule) == FirstFrame(decode, stream).value
  {
    var n := st.replyLength;
    FirstFrameBody(decode, stream, n);
    assert stream[HeaderSize..HeaderSize] == [];
    assert BodyPhase(stream, st, n);
    BodyLoopComplete(decode, stream, st, n, schedule);
  }

  /** When the header holds `n` and the reference reading exists, it is the whole body. */
  lemma FirstFrameBody<M>(decode: seq<byte> -> Option<M>, stream: seq<byte>, n: int)
    requires HeaderHolds(stream, n) && FirstFrame(decode, stream).Some?
    ensures Requestable(n) && |stream| >= HeaderSize + n
    ensures FirstFrame(decode, stream).value == RecvOutcome(Owed(decode, stream[HeaderSize..HeaderSize + n]), HeaderSize + n)
  {
  }

  /** A header that does not hold an integer ends the reference reading with the error
      `recv` raises. */
  lemma HeaderErrorFrame<M>(decode: seq<byte> -> Option<M>, stream: seq<byte>)
    requires |stream| >= HeaderSize
    requires !(Ascii(stream[..HeaderSize]) && PyIntUnicode(Decode(stream[..HeaderSize])).Some?)
    ensures Extent(stream) == HeaderSize
    ensures FirstFrame(decode, stream) ==
      Some(RecvOutcome(if Ascii(stream[..HeaderSize]) then Err(ValueError) else Err(UnicodeDecodeError), HeaderSize))
  {
  }

  /** One pass in the header phase: the loop stays in that phase, never going back and
      moving on whenever bytes are offered; or it completes a header holding an integer;
      or it completes a header that holds none and returns the error. */
  lemma HeaderPass<M>(decode: seq<byte> -> Option<M>, stream: seq<byte>, st: RecvState, schedule: seq<nat>)
      returns (next: Option<RecvState>)
    requires HeaderPhase(stream, st) && schedule != []
    ensures next.Some? ==>
      && (HeaderPhase(stream, next.value) || (Started(stream, next.value) && schedule[0] > 0))
      && st.consumed <= next.value.consumed
      && (schedule[0] > 0 && st.consumed < |stream| ==> st.consumed < next.value.consumed)
      && RecvLoop(decode, stream, st, schedule) == RecvLoop(decode, stream, next.value, schedule[1..])
    ensures next.None? ==>
      && |stream| >= HeaderSize
      && !(Ascii(stream[..HeaderSize]) && PyIntUnicode(Decode(stream[..HeaderSize])).Some?)
      && RecvLoop(decode, stream, st, schedule) ==
           RecvOutcome(if Ascii(stream[..HeaderSize]) then Err(ValueError) else Err(UnicodeDecodeError), HeaderSize)
  {
    var data := Received(stream, st, schedule[0]);
    if data != [] && st.remaining - |data| <= 0 {
      next := HeaderPassDone(decode, stream, st, schedule, data);
    } else {
      var more := HeaderPassMore(decode, stream, st, schedule, data);
      next := Some(more);
    }
  }

  /** A header-phase pass that leaves the header incomplete. */
  lemma HeaderPassMore<M>(decode: seq<byte> -> Option<M>, stream: seq<byte>, st: RecvState, schedule: seq<nat>, data: seq<byte>)
      returns (next: RecvState)
    requires HeaderPhase(stream, st) && schedule != []
    requires data == Received(stream, st, schedule[0]) && (data == [] || st.remaining - |data| > 0)
    ensures HeaderPhase(stream, next)
    ensures st.consumed <= next.consumed
    ensures schedule[0] > 0 && st.consumed < |stream| ==> st.consumed < next.consumed
    ensures RecvLoop(decode, stream, st, schedule) == RecvLoop(decode, stream, next, schedule[1..])
  {
    if data == [] {
      PassIdle(decode, stream, st, schedule);
      next := st;
    } else {
      var consumed := st.consumed + |data|;
      SliceJoin(stream, 0, st.consumed, consumed);
      PassPartial(decode, stream, st, schedule, data);
      next := RecvState(st.acc + data, 0, st.remaining - |data|, consumed);
    }
  }

  /** The header-phase pass that completes the header. */
  lemma HeaderPassDone<M>(decode: seq<byte> -> Option<M>, stream: seq<byte>, st: RecvState, schedule: seq<nat>, data: seq<byte>)
      returns (next: Option<RecvState>)
    requires HeaderPhase(stream, st) && schedule != []
    requires data == Received(stream, st, schedule[0]) && data != [] && st.remaining - |data| <= 0
    ensures next.Some? ==>
      && Started(stream, next.value) && schedule[0] > 0
      && RecvLoop(decode, stream, st, schedule) == RecvLoop(decode, stream, next.value, schedule[1..])
    ensures next.None? ==>
      && |stream| >= HeaderSize
      && !(Ascii(stream[..HeaderSize]) && PyIntUnicode(Decode(stream[..HeaderSize])).Some?)
      && RecvLoop(decode, stream, st, schedule) ==
           RecvOutcome(if Ascii(stream[..HeaderSize]) then Err(ValueError) else Err(UnicodeDecodeError), HeaderSize)
  {
    var acc := st.acc + data;
    SliceJoin(stream, 0, st.consumed, HeaderSize);
    assert acc == stream[..HeaderSize];
    if Ascii(acc) && PyIntUnicode(Decode(acc)).Some? {
      var n := PyIntUnicode(Decode(acc)).value;
      PassHeaderDone(decode, stream, st, schedule, data, n);
      next := Some(RecvState([], n, n, HeaderSize));
    } else {
      PassHeaderError(decode, stream, st, schedule, data);
      next := None;
    }
  }

  /** The pass that completes a header holding no integer returns the error. */
  lemma PassHeaderError<M>(decode: seq<byte> -> Option<M>, stream: seq<byte>, st: RecvState, schedule: seq<nat>, data: seq<byte>)
    requires st.consumed <= |stream| && schedule != [] && st.replyLength == 0
    requires data == Received(stream, st, schedule[0]) && data != [] && st.remaining - |data| <= 0
    requires !(Ascii(st.acc + data) && PyIntUnicode(Decode(st.acc + data)).Some?)
    ensures RecvLoop(decode, stream, st, schedule) ==
      RecvOutcome(if Ascii(st.acc + data) then Err(ValueError) else Err(UnicodeDecodeError), st.consumed + |data|)
  {
    var out := RecvOutcome(if Ascii(st.acc + data) then Err(ValueError) else Err(UnicodeDecodeError), st.consumed + |data|);
    if Ascii(st.acc + data) {
      ArrivedHeader(decode, st, data);
      HeaderReadError<M>(st.acc + data, st.consumed + |data|);
    }
    assert Arrived(decode, st, data) == Return(out);
    PassReturn(decode, stream, st, schedule, out);
  }

  lemma HeaderReadError<M>(header: seq<byte>, consumed: nat)
    requires Ascii(header) && PyIntUnicode(Decode(header)).None?
    ensures HeaderRead<M>(header, consumed) == Return(RecvOutcome(Err(ValueError), consumed))
  {
  }

  lemma PassReturn<M>(decode: seq<byte> -> Option<M>, stream: seq<byte>, st: RecvState, schedule: seq<nat>, out: RecvOutcome<M>)
    requires st.consumed <= |stream| && schedule != []
    requires Arrived(decode, st, Received(stream, st, schedule[0])) == Return(out)
    ensures RecvLoop(decode, stream, st, schedule) == out
  {
    assert RecvStep(decode, stream, st, schedule[0]) == Return(out);
  }

  lemma {:induction false} HeaderLoop<M>(decode: seq<byte> -> Option<M>, stream: seq<byte>, st: RecvState, schedule: seq<nat>)
    requires HeaderPhase(stream, st)
    decreases |schedule|
    ensures FrameOutcome(decode, stream, RecvLoop(decode, stream, st, schedule))
  {
    if schedule != [] {
      var next := HeaderPass(decode, stream, st, schedule);
      if next.None? {
        HeaderErrorFrame(decode, stream);
      } else if HeaderPhase(stream, next.value) {
        HeaderLoop(decode, stream, next.value, schedule[1..]);
      } else {
        AfterHeader(decode, stream, next.value, schedule[1..]);
      }
    }
  }

  lemma {:induction false} HeaderLoopComplete<M>(decode: seq<byte> -> Option<M>, stream: seq<byte>, st: RecvState, schedule: seq<nat>)
    requires HeaderPhase(stream, st)
    requires FirstFrame(decode, stream).Some?
    requires Progress(schedule) >= FirstFrame(decode, stream).value.consumed - st.consumed
    decreases |schedule|
    ensures RecvLoop(decode, stream, st, schedule) == FirstFrame(decode, stream).value
  {
    var next := HeaderPass(decode, stream, st, schedule);
    if next.None? {
      HeaderErrorFrame(decode, stream);
    } else if HeaderPhase(stream, next.value) {
      HeaderLoopComplete(decode, stream, next.value, schedule[1..]);
    } else {
      AfterHeaderComplete(decode, stream, next.value, schedule[1..]);
    }
  }

  // ------------------------------------------------------------ properties

  /** Whatever the chunking, `recv` either times out or returns exactly the reference
      reading of the first frame, and it never takes bytes beyond that frame. */
  lemma RecvSound<M>(decode: seq<byte> -> Option<M>, stream: seq<byte>, schedule: seq<nat>)
    ensures Recv(decode, stream, schedule).consumed <= Extent(stream)
    ensures Recv(decode, stream, schedule).result == Err(RuntimeError)
         || FirstFrame(decode, stream) == Some(Recv(decode, stream, schedule))
  {
    HeaderLoop(decode, stream, Initial, schedule);
  }

  /** Given as many non-empty deliveries as the frame has bytes, `recv` completes the
      reference reading, whatever the sizes of the individual chunks. */
  lemma RecvComplete<M>(decode: seq<byte> -> Option<M>, stream: seq<byte>, schedule: seq<nat>)
    requires FirstFrame(decode, stream).Some?
    requires Progress(schedule) >= FirstFrame(decode, stream).value.consumed
    ensures Recv(decode, stream, schedule) == FirstFrame(decode, stream).value
  {
    HeaderLoopComplete(decode, stream, Initial, schedule);
  }

  /** Reading a server frame followed by anything else: `recv` consumes exactly the
      header and the body (never the following bytes) and returns the decoded body.  A
      body longer than a C `int` is never requested: the call takes the header alone and
      times out. */
  lemma RecvServerFrame<M>(decode: seq<byte> -> Option<M>, body: seq<byte>, rest: seq<byte>, schedule: seq<nat>)
    requires 0 < |body| <= MaxBodyLength && Ascii(body)
    ensures var out := Recv(decode, ServerFrame(body) + rest, schedule);
      && out.consumed <= HeaderSize + |body|
      && (out.result == Err(RuntimeError) || out == RecvOutcome(Loads(decode, body), HeaderSize + |body|))
      && (|body| <= MaxRecvSize && Progress(schedule) >= HeaderSize + |body| ==>
            out == RecvOutcome(Loads(decode, body), HeaderSize + |body|))
      && (|body| > MaxRecvSize ==> out.result == Err(RuntimeError) && out.consumed <= HeaderSize)
  {
    var stream := ServerFrame(body) + rest;
    ServerFrameFirst(decode, body, rest);
    RecvSound(decode, stream, schedule);
    if |body| <= MaxRecvSize && Progress(schedule) >= HeaderSize + |body| {
      RecvComplete(decode, stream, schedule);
    }
  }

  /** The reference reading of a server frame followed by anything else. */
  lemma ServerFrameFirst<M>(decode: seq<byte> -> Option<M>, body: seq<byte>, rest: seq<byte>)
    requires 0 < |body| <= MaxBodyLength && Ascii(body)
    ensures |body| <= MaxRecvSize ==>
      && FirstFrame(decode, ServerFrame(body) + rest) == Some(RecvOutcome(Loads(decode, body), HeaderSize + |body|))
      && Extent(ServerFrame(body) + rest) == HeaderSize + |body|
    ensures |body| > MaxRecvSize ==>
      && FirstFrame(decode, ServerFrame(body) + rest) == None
      && Extent(ServerFrame(body) + rest) == HeaderSize
  {
    var stream := ServerFrame(body) + rest;
    ServerFrameHeader(body);
    assert stream[..HeaderSize] == ServerFrame(body)[..HeaderSize];
    assert stream[HeaderSize..HeaderSize + |body|] == body;
  }

  /** Round trip through the wire: what the server encoded is what the client returns,
      provided the JSON codec round-trips on that message and its encoding is short
      enough for `recv` to request; a longer one ends in the timeout. */
  lemma RecvRoundTrip<M>(encode: M -> seq<byte>, decode: seq<byte> -> Option<M>, m: M, rest: seq<byte>, schedule: seq<nat>)
    requires decode(encode(m)) == Some(m)
    requires 0 < |encode(m)| <= MaxBodyLength && Ascii(encode(m))
    requires Progress(schedule) >= HeaderSize + |encode(m)|
    ensures |encode(m)| <= MaxRecvSize ==>
      Recv(decode, ServerFrame(encode(m)) + rest, schedule) == RecvOutcome(Ok(m), HeaderSize + |encode(m)|)
    ensures |encode(m)| > MaxRecvSize ==>
      Recv(decode, ServerFrame(encode(m)) + rest, schedule).result == Err(RuntimeError)
  {
    RecvServerFrame(decode, encode(m), rest, schedule);
  }

  /** `recv` reads its header as a `unicode` string: any ten characters whose `int()`
      is the body length announce the body, and `recv` returns it. Whitespace padding
      of any kind qualifies (`PyIntUnicodePadded`), the information separators U+001C to
      U+001F included, which a byte-string `int()` rejects.  A length beyond a C `int`
      cannot be requested, and the call times out. */
  lemma RecvTextHeader<M>(decode: seq<byte> -> Option<M>, h: string, body: seq<byte>, rest: seq<byte>, schedule: seq<nat>)
    requires AsciiText(h) && |h| == HeaderSize && PyIntUnicode(h) == Some(|body|)
    requires 0 < |body| && Ascii(body)
    requires Progress(schedule) >= HeaderSize + |body|
    ensures |body| <= MaxRecvSize ==>
      Recv(decode, Encode(h) + body + rest, schedule) == RecvOutcome(Loads(decode, body), HeaderSize + |body|)
    ensures |body| > MaxRecvSize ==> Recv(decode, Encode(h) + body + rest, schedule).result == Err(RuntimeError)
  {
    var stream := Encode(h) + body + rest;
    TextHeaderFrame(decode, h, body, rest);
    if |body| <= MaxRecvSize {
      RecvComplete(decode, stream, schedule);
    } else {
      RecvSound(decode, stream, schedule);
    }
  }

  /** The reference reading of a frame behind a text header. */
  lemma TextHeaderFrame<M>(decode: seq<byte> -> Option<M>, h: string, body: seq<byte>, rest: seq<byte>)
    requires AsciiText(h) && |h| == HeaderSize && PyIntUnicode(h) == Some(|body|)
    requires 0 < |body| && Ascii(body)
    ensures FirstFrame(decode, Encode(h) + body + rest) ==
      if |body| <= MaxRecvSize then Some(RecvOutcome(Loads(decode, body), HeaderSize + |body|)) else None
  {
    var stream := Encode(h) + body + rest;
    TextHeader(h, |body|, body + rest);
    assert stream == Encode(h) + (body + rest);
    assert (body + rest)[..|body|] == body;
  }

  /** Nine U+001C separators and "5" announce a five-byte body. */
  lemma RecvSeparatorHeader<M>(decode: seq<byte> -> Option<M>, body: seq<byte>, rest: seq<byte>, schedule: seq<nat>)
    requires |body| == 5 && Ascii(body)
    requires Progress(schedule) >= HeaderSize + 5
    ensures AsciiText(Repeat('\U{1C}', 9) + "5")
    ensures Recv(decode, Encode(Repeat('\U{1C}', 9) + "5") + body + rest, schedule) == RecvOutcome(Loads(decode, body), HeaderSize + 5)
  {
    var w := Repeat('\U{1C}', 9);
    assert NatToString(5) == "5";
    UnicodePaddedAscii(w, 5);
    PyIntUnicodePadded(w, 5);
    RecvTextHeader(decode, w + "5", body, rest, schedule);
  }

  /** Ten characters of text whose `int()` is `n`, sent ahead of at least `n` bytes. */
  lemma TextHeader(h: string, n: int, tail: seq<byte>)
    requires AsciiText(h) && |h| == HeaderSize && PyIntUnicode(h) == Some(n) && 0 <= n <= |tail|
    ensures HeaderHolds(Encode(h) + tail, n)
    ensures (Encode(h) + tail)[HeaderSize..HeaderSize + n] == tail[..n]
  {
    FramePrefix(h, tail);
    assert h[..HeaderSize] == h;
  }

  /** A header whose decoded text is not an integer makes `int()` raise `ValueError` once
      the ten header bytes have arrived; before that the loop can only time out. */
  lemma RecvBadHeader<M>(decode: seq<byte> -> Option<M>, stream: seq<byte>, schedule: seq<nat>)
    requires |stream| >= HeaderSize && Ascii(stream[..HeaderSize]) && PyIntUnicode(Decode(stream[..HeaderSize])).None?
    ensures Recv(decode, stream, schedule).result in {Err(ValueError), Err(RuntimeError)}
    ensures Recv(decode, stream, schedule).consumed <= HeaderSize
    ensures Progress(schedule) >= HeaderSize ==> Recv(decode, stream, schedule) == RecvOutcome(Err(ValueError), HeaderSize)
  {
    RecvSound(decode, stream, schedule);
    if Progress(schedule) >= HeaderSize {
      RecvComplete(decode, stream, schedule);
    }
  }

  /** A header announcing zero (or a negative length) never yields a message: `recv`
      then asks for no bytes and times out. */
  lemma RecvNonPositiveHeader<M>(decode: seq<byte> -> Option<M>, stream: seq<byte>, schedule: seq<nat>)
    requires |stream| >= HeaderSize && Ascii(stream[..HeaderSize])
    requires PyIntUnicode(Decode(stream[..HeaderSize])).Some? && PyIntUnicode(Decode(stream[..HeaderSize])).value <= 0
    ensures Recv(decode, stream, schedule).result == Err(RuntimeError)
  {
    RecvSound(decode, stream, schedule);
  }

  /** A header announcing more than a C `int` holds never yields a message either: every
      `recv` call raises `OverflowError`, which the loop swallows, so only the header is
      taken and the call times out. */
  lemma RecvOversizedHeader<M>(decode: seq<byte> -> Option<M>, stream: seq<byte>, schedule: seq<nat>)
    requires |stream| >= HeaderSize && Ascii(stream[..HeaderSize])
    requires PyIntUnicode(Decode(stream[..HeaderSize])).Some? && PyIntUnicode(Decode(stream[..HeaderSize])).value > MaxRecvSize
    ensures Recv(decode, stream, schedule).result == Err(RuntimeError)
    ensures Recv(decode, stream, schedule).consumed <= HeaderSize
  {
    RecvSound(decode, stream, schedule);
  }

  /** A stream that holds no complete frame always ends in the timeout's `RuntimeError`. */
  lemma RecvIncomplete<M>(decode: seq<byte> -> Option<M>, stream: seq<byte>, schedule: seq<nat>)
    requires |stream| < HeaderSize
          || (Ascii(stream[..HeaderSize]) && PyIntUnicode(Decode(stream[..HeaderSize])).Some?
              && |stream| < HeaderSize + PyIntUnicode(Decode(stream[..HeaderSize])).value)
    ensures Recv(decode, stream, schedule).result == Err(RuntimeError)
  {
    RecvSound(decode, stream, schedule);
  }

  // ------------------------------------------------------------------ send

  datatype SendOutcome<M> = SendOutcome(sent: seq<byte>, reply: Option<RecvOutcome<M>>)

  /** `ClientBase.send` for an already JSON-encoded body. The socket is non-blocking, so
      `sendall` raises once the socket stops taking bytes; `accepted` is how many bytes it
      takes before that (0 when it raises at once). When the whole space-padded frame fits
      the call returns what `recv` returns; otherwise the prefix that went out stays sent
      and the call returns `None` without reading. */
  function Send<M>(decode: seq<byte> -> Option<M>, body: seq<byte>, accepted: nat,
                   replyStream: seq<byte>, schedule: seq<nat>): (out: SendOutcome<M>)
    ensures |out.sent| <= |ClientFrame(body)| && out.sent == ClientFrame(body)[..|out.sent|]
    ensures out.reply.Some? <==> accepted >= |ClientFrame(body)|
    ensures out.reply.None? ==> |out.sent| == accepted
    ensures out.reply.Some? ==> out.sent == ClientFrame(body)
    ensures out.reply.Some? ==> out.reply == Some(Recv(decode, replyStream, schedule))
    ensures out.reply.Some? && |body| <= MaxBodyLength ==>
      && |out.sent| == HeaderSize + |body|
      && out.sent[HeaderSize..] == body
      && Ascii(out.sent[..HeaderSize])
      && PyInt(Decode(out.sent[..HeaderSize])) == Some(|body|)
  {
    var frame := ClientFrame(body);
    if accepted >= |frame| then
      ClientFrameHeader(body);
      ClientHeaderWidth(|body|);
      SendOutcome(frame, Some(Recv(decode, replyStream, schedule)))
    else
      SendOutcome(frame[..accepted], None)
  }

  /** A request that goes out whole, answered by a server frame carrying an encoded
      message, returns that message once the transport has handed over enough bytes. */
  lemma SendRoundTrip<M>(encode: M -> seq<byte>, decode: seq<byte> -> Option<M>, body: seq<byte>,
                         accepted: nat, m: M, rest: seq<byte>, schedule: seq<nat>)
    requires accepted >= |ClientFrame(body)|
    requires decode(encode(m)) == Some(m)
    requires 0 < |encode(m)| <= MaxBodyLength && Ascii(encode(m))
    requires Progress(schedule) >= HeaderSize + |encode(m)|
    ensures |encode(m)| <= MaxRecvSize ==>
      Send(decode, body, accepted, ServerFrame(encode(m)) + rest, schedule).reply ==
        Some(RecvOutcome(Ok(m), HeaderSize + |encode(m)|))
    ensures |encode(m)| > MaxRecvSize ==>
      Send(decode, body, accepted, ServerFrame(encode(m)) + rest, schedule).reply.value.result == Err(RuntimeError)
  {
    RecvRoundTrip(encode, decode, m, rest, schedule);
  }
}
