/** The server read loop with its framing state kept across deliveries, as the
    `AWAITING_HEADER` / `AWAITING_BODY` bookkeeping of `ServerBase.read` evidently intends.
    Header bytes and body bytes accumulate until complete, whatever the delivery sizes.
    The per-delivery behaviour on errors is kept: an invalid header is answered with one
    `Invalid Header` failure and the rest of that delivery is dropped. */
module Reassembly {
  import opened Results
  import opened Text
  import opened Framing
  import opened Server

  datatype Phase = AwaitHeader(acc: seq<byte>) | AwaitBody(length: nat, acc: seq<byte>) | Discarding

  datatype Machine = Machine(phase: Phase, replies: seq<Reply>)

  const Start: Machine := Machine(AwaitHeader([]), [])

  /** One byte into the machine. */
  function Feed(env: Env, m: Machine, b: byte): Machine {
    match m.phase
    case Discarding => m
    case AwaitHeader(acc) =>
      var header := acc + [b];
      if |header| < HeaderSize then Machine(AwaitHeader(header), m.replies)
      else (
        match env.toInt(header)
        case None => Machine(Discarding, m.replies + [Failure(InvalidHeaderMsg)])
        case Some(n) => if n > 0 then Machine(AwaitBody(n, []), m.replies) else Machine(AwaitHeader([]), m.replies))
    case AwaitBody(n, acc) =>
      var body := acc + [b];
      if |body| < n then Machine(AwaitBody(n, body), m.replies)
      else if Ascii(body) && env.loads(body) then Machine(AwaitHeader([]), m.replies + [Success])
      else Machine(Discarding, m.replies)
  }

  /** The bytes of a delivery, left to right. */
  function FeedAll(env: Env, m: Machine, bs: seq<byte>): Machine
    decreases |bs|
  {
    if bs == [] then m else FeedAll(env, Feed(env, m, bs[0]), bs[1..])
  }

  /** The end of a delivery: whatever was being discarded is gone. */
  function EndDelivery(m: Machine): Machine {
    if m.phase.Discarding? then Machine(AwaitHeader([]), m.replies) else m
  }

  function Deliver(env: Env, m: Machine, d: seq<byte>): Machine {
    EndDelivery(FeedAll(env, m, d))
  }

  function Run(env: Env, m: Machine, deliveries: seq<seq<byte>>): Machine
    decreases |deliveries|
  {
    if deliveries == [] then m else Run(env, Deliver(env, m, deliveries[0]), deliveries[1..])
  }

  /** The replies of a connection that receives `deliveries`. */
  function Reassembled(env: Env, deliveries: seq<seq<byte>>): seq<Reply> {
    Run(env, Start, deliveries).replies
  }

  function Flatten(ds: seq<seq<byte>>): seq<byte> {
    if ds == [] then [] else ds[0] + Flatten(ds[1..])
  }

  // -------------------------------------------------------------- fold algebra

  lemma {:induction false} FeedAllAppend(env: Env, m: Machine, a: seq<byte>, b: seq<byte>)
    ensures FeedAll(env, m, a + b) == FeedAll(env, FeedAll(env, m, a), b)
    decreases |a|
  {
    if a == [] {
      assert a + b == b;
    } else {
      assert (a + b)[0] == a[0];
      assert (a + b)[1..] == a[1..] + b;
      FeedAllAppend(env, Feed(env, m, a[0]), a[1..], b);
    }
  }

  lemma {:induction false} DiscardingAbsorbs(env: Env, rs: seq<Reply>, bs: seq<byte>)
    ensures FeedAll(env, Machine(Discarding, rs), bs) == Machine(Discarding, rs)
  {
    if bs != [] {
      DiscardingAbsorbs(env, rs, bs[1..]);
    }
  }

  /** Delivery boundaries do not matter: a connection that never hits an error behaves as
      if the whole byte stream had arrived at once. */
  lemma {:induction false} ChunkingIrrelevant(env: Env, m: Machine, ds: seq<seq<byte>>)
    requires !FeedAll(env, m, Flatten(ds)).phase.Discarding?
    ensures Run(env, m, ds) == FeedAll(env, m, Flatten(ds))
    decreases |ds|
  {
    if ds != [] {
      FeedAllAppend(env, m, ds[0], Flatten(ds[1..]));
      var mid := FeedAll(env, m, ds[0]);
      if mid.phase.Discarding? {
        DiscardingAbsorbs(env, mid.replies, Flatten(ds[1..]));
        assert false;
      }
      ChunkingIrrelevant(env, mid, ds[1..]);
    }
  }

  // --------------------------------------------------------------- frames

  lemma {:induction false} HeaderFill(env: Env, acc: seq<byte>, bs: seq<byte>, rs: seq<Reply>)
    requires |acc| + |bs| < HeaderSize
    ensures FeedAll(env, Machine(AwaitHeader(acc), rs), bs) == Machine(AwaitHeader(acc + bs), rs)
    decreases |bs|
  {
    if bs == [] {
      assert acc + bs == acc;
    } else {
      assert acc + [bs[0]] + bs[1..] == acc + bs;
      HeaderFill(env, acc + [bs[0]], bs[1..], rs);
    }
  }

  lemma {:induction false} BodyFill(env: Env, n: nat, acc: seq<byte>, bs: seq<byte>, rs: seq<Reply>)
    requires |acc| + |bs| < n
    ensures FeedAll(env, Machine(AwaitBody(n, acc), rs), bs) == Machine(AwaitBody(n, acc + bs), rs)
    decreases |bs|
  {
    if bs == [] {
      assert acc + bs == acc;
    } else {
      assert acc + [bs[0]] + bs[1..] == acc + bs;
      BodyFill(env, n, acc + [bs[0]], bs[1..], rs);
    }
  }

  lemma FeedAllLast(env: Env, m: Machine, bs: seq<byte>)
    requires bs != []
    ensures FeedAll(env, m, bs) == Feed(env, FeedAll(env, m, bs[..|bs| - 1]), bs[|bs| - 1])
  {
    FeedAllAppend(env, m, bs[..|bs| - 1], [bs[|bs| - 1]]);
    assert bs[..|bs| - 1] + [bs[|bs| - 1]] == bs;
  }

  /** One well-formed frame from the header position earns exactly one `Success`. */
  lemma OneFrame(env: Env, f: Frame, rs: seq<Reply>)
    requires ValidFrame(env, f.header, f.body)
    ensures FeedAll(env, Machine(AwaitHeader([]), rs), f.header + f.body) == Machine(AwaitHeader([]), rs + [Success])
  {
    var h := f.header;
    var b := f.body;
    FeedAllLast(env, Machine(AwaitHeader([]), rs), h);
    HeaderFill(env, [], h[..|h| - 1], rs);
    assert [] + h[..|h| - 1] + [h[|h| - 1]] == h;
    var afterHeader := Machine(AwaitBody(|b|, []), rs);
    assert FeedAll(env, Machine(AwaitHeader([]), rs), h) == afterHeader;
    FeedAllLast(env, afterHeader, b);
    BodyFill(env, |b|, [], b[..|b| - 1], rs);
    assert [] + b[..|b| - 1] + [b[|b| - 1]] == b;
    FeedAllAppend(env, Machine(AwaitHeader([]), rs), h, b);
  }

  lemma {:induction false} ManyFrames(env: Env, frames: seq<Frame>, rs: seq<Reply>)
    requires forall i :: 0 <= i < |frames| ==> ValidFrame(env, frames[i].header, frames[i].body)
    ensures FeedAll(env, Machine(AwaitHeader([]), rs), Concat(frames)) == Machine(AwaitHeader([]), rs + Successes(|frames|))
  {
    if frames == [] {
      assert rs + Successes(0) == rs;
    } else {
      var f := frames[0];
      assert Concat(frames) == (f.header + f.body) + Concat(frames[1..]);
      FeedAllAppend(env, Machine(AwaitHeader([]), rs), f.header + f.body, Concat(frames[1..]));
      OneFrame(env, f, rs);
      ManyFrames(env, frames[1..], rs + [Success]);
      assert rs + [Success] + Successes(|frames| - 1) == rs + Successes(|frames|);
    }
  }

  /** However a stream of well-formed frames is cut into deliveries, each frame gets
      exactly one `Success` and nothing else is written. */
  lemma FragmentedDelivery(env: Env, frames: seq<Frame>, ds: seq<seq<byte>>)
    requires forall i :: 0 <= i < |frames| ==> ValidFrame(env, frames[i].header, frames[i].body)
    requires Flatten(ds) == Concat(frames)
    ensures Reassembled(env, ds) == Successes(|frames|)
  {
    ManyFrames(env, frames, []);
    ChunkingIrrelevant(env, Start, ds);
    assert [] + Successes(|frames|) == Successes(|frames|);
  }

  /** On a delivery of whole frames the corrected loop and `ServerBase.read` agree. */
  lemma AgreesOnWholeFrames(env: Env, frames: seq<Frame>)
    requires forall i :: 0 <= i < |frames| ==> ValidFrame(env, frames[i].header, frames[i].body)
    ensures Reassembled(env, [Concat(frames)]) == Read(env, Concat(frames)).replies == Successes(|frames|)
  {
    ReadWholeFrames(env, frames);
    assert Flatten([Concat(frames)]) == Concat(frames) + [];
    assert Concat(frames) + [] == Concat(frames);
    FragmentedDelivery(env, frames, [Concat(frames)]);
  }

  // ----------------------------------------------------------- the ping example

  /** `{"cmd": "ping"}` as `json.dumps` writes it, behind its zero-padded header. */
  const PingHeader: string := "0000000015"
  const PingBody: string := "{\"cmd\": \"ping\"}"

  /** The ping frame cut after eight body bytes. */
  function PingDeliveries(): (ds: seq<seq<byte>>)
    ensures |ds| == 2
  {
    [Encode(PingHeader + PingBody[..8]), Encode(PingBody[8..])]
  }

  lemma PingPieces()
    ensures |PingBody| == 15
    ensures Encode(PingHeader + PingBody[..8]) == Encode(PingHeader) + Encode(PingBody)[..8]
    ensures Encode(PingBody[8..]) == Encode(PingBody)[8..]
  {
  }

  /** As written: the ping split over two deliveries is answered with `Invalid Header`
      instead of `Success`, because the tail `"ping"}` is read as a header. */
  lemma PingSplitAsWritten(env: Env)
    requires env.toInt(Encode(PingHeader)) == Some(15) && env.loads(Encode(PingBody))
    requires env.toInt(Encode(PingBody[8..])) == None
    ensures Session(env, PingDeliveries()) == [Failure(InvalidHeaderMsg)]
  {
    PingPieces();
    var h := Encode(PingHeader);
    var b := Encode(PingBody);
    SplitBodyNotReassembled(env, h, b, 8);
    assert b[8..][..Min(HeaderSize, |b[8..]|)] == b[8..];
  }

  /** Corrected: the same two deliveries earn the one `Success` the frame is owed. */
  lemma PingSplitReassembled(env: Env)
    requires env.toInt(Encode(PingHeader)) == Some(15) && env.loads(Encode(PingBody))
    ensures Reassembled(env, PingDeliveries()) == [Success]
  {
    PingPieces();
    SplitFrameReassembled(env, Encode(PingHeader), Encode(PingBody), 8);
  }

  /** Corrected: a frame cut anywhere into two deliveries earns its one `Success`. */
  lemma SplitFrameReassembled(env: Env, header: seq<byte>, body: seq<byte>, k: nat)
    requires ValidFrame(env, header, body) && k <= |body|
    ensures Reassembled(env, [header + body[..k], body[k..]]) == [Success]
  {
    var f := Frame(header, body);
    var ds := [header + body[..k], body[k..]];
    assert Flatten(ds) == ds[0] + (ds[1] + Flatten([])) by {
      assert ds[1..] == [body[k..]] && ds[1..][1..] == [];
    }
    assert body[..k] + body[k..] == body;
    assert Concat([f]) == f.header + f.body + Concat([]);
    FragmentedDelivery(env, [f], ds);
    assert Successes(1) == [Success];
  }
}
