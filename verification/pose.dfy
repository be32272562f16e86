/** The pure parts of pose2maya.py: the frames x joints x channels transpose that feeds
    keyframing, the rule that skips joints with no rotation data, the "which child does a
    joint aim at" lookup of `create_skeleton`, the name-suffix joint lookup of
    `VideoPose3D_Skeleton`, and its sorted pair table and orientation filter. */
module Pose {
  import opened Results
  import opened Topology
  import Fields
  import Text

  /** The number of channels per joint (X, Y, Z). */
  const ChannelCount: nat := 3

  // ------------------------------------------------------------ transpose

  /** A frame has a value that the 17 x 3 table has no slot for: a non-empty joint past the
      17th, or a joint with more than 3 channels. */
  predicate FrameOverflows<T>(frame: seq<seq<T>>) {
    exists n :: 0 <= n < |frame| && |frame[n]| > 0 && (n >= JointCount || |frame[n]| > ChannelCount)
  }

  predicate Overflows<T>(rots: seq<seq<seq<T>>>) {
    exists f :: 0 <= f < |rots| && FrameOverflows(rots[f])
  }

  /** Channel `i` of joint `n` over the frames that carry it, in frame order. */
  function Channel<T>(rots: seq<seq<seq<T>>>, n: nat, i: nat): seq<T> {
    if rots == [] then []
    else (if n < |rots[0]| && i < |rots[0][n]| then [rots[0][n][i]] else []) + Channel(rots[1..], n, i)
  }

  /** A 17 x 3 table of empty lists. */
  function EmptyGrid<T>(): (g: seq<seq<seq<T>>>)
    ensures |g| == JointCount && forall n :: 0 <= n < JointCount ==> |g[n]| == ChannelCount
  {
    seq(JointCount, _ => seq(ChannelCount, _ => []))
  }

  predicate IsGrid<T>(g: seq<seq<seq<T>>>) {
    |g| == JointCount && forall n :: 0 <= n < JointCount ==> |g[n]| == ChannelCount
  }

  /** The inner two loops of `_split_rotations`: append every value of one frame to its
      joint's channel list, failing with `IndexError` on a value with no slot. */
  function AddFrame<T>(g: seq<seq<seq<T>>>, frame: seq<seq<T>>): (r: Result<seq<seq<seq<T>>>>)
    requires IsGrid(g)
    ensures r.Err? <==> FrameOverflows(frame)
    ensures r.Err? ==> r.error == IndexError
    ensures r.Ok? ==> IsGrid(r.value)
  {
    if FrameOverflows(frame) then Err(IndexError)
    else
      Ok(seq(JointCount, n requires 0 <= n < JointCount =>
        seq(ChannelCount, i requires 0 <= i < ChannelCount =>
          g[n][i] + (if n < |frame| && i < |frame[n]| then [frame[n][i]] else []))))
  }

  /** `_split_rotations`: reshape n frames x 17 joints x 3 channels into 17 x 3 x n. */
  function SplitRotations<T>(rots: seq<seq<seq<T>>>): (r: Result<seq<seq<seq<T>>>>)
    ensures r.Err? <==> Overflows(rots)
    ensures r.Err? ==> r.error == IndexError
    ensures r.Ok? ==> IsGrid(r.value)
    ensures r.Ok? ==> forall n, i :: 0 <= n < JointCount && 0 <= i < ChannelCount ==>
      r.value[n][i] == Channel(rots, n, i)
  {
    if rots == [] then Ok(EmptyGrid())
    else
      var front := rots[..|rots| - 1];
      var last := rots[|rots| - 1];
      OverflowsSplit(rots);
      match SplitRotations(front)
      case Err(e) => Err(e)
      case Ok(g) =>
        var r := AddFrame(g, last);
        if r.Ok? then
          forall n, i | 0 <= n < JointCount && 0 <= i < ChannelCount
            ensures r.value[n][i] == Channel(rots, n, i)
          {
            ChannelSnoc(front, last, n, i);
            assert rots == front + [last];
          }
          r
        else r
  }

  lemma OverflowsSplit<T>(rots: seq<seq<seq<T>>>)
    requires rots != []
    ensures Overflows(rots) <==> Overflows(rots[..|rots| - 1]) || FrameOverflows(rots[|rots| - 1])
  {
    var front := rots[..|rots| - 1];
    if Overflows(rots) && !FrameOverflows(rots[|rots| - 1]) {
      var f :| 0 <= f < |rots| && FrameOverflows(rots[f]);
      assert front[f] == rots[f];
    }
    if Overflows(front) {
      var f :| 0 <= f < |front| && FrameOverflows(front[f]);
      assert rots[f] == front[f];
    }
  }

  /** Adding a frame at the end adds its value at the end of the channel. */
  lemma {:induction false} ChannelSnoc<T>(rots: seq<seq<seq<T>>>, frame: seq<seq<T>>, n: nat, i: nat)
    ensures Channel(rots + [frame], n, i) ==
      Channel(rots, n, i) + (if n < |frame| && i < |frame[n]| then [frame[n][i]] else [])
  {
    if rots == [] {
      assert [] + [frame] == [frame];
      assert [frame][1..] == [];
    } else {
      assert (rots + [frame])[1..] == rots[1..] + [frame];
      ChannelSnoc(rots[1..], frame, n, i);
    }
  }

  /** Every frame is 17 joints of 3 channels. */
  predicate Rectangular<T>(rots: seq<seq<seq<T>>>) {
    forall f :: 0 <= f < |rots| ==>
      |rots[f]| == JointCount && forall n :: 0 <= n < JointCount ==> |rots[f][n]| == ChannelCount
  }

  /** On well-shaped input the reshape is a transpose: every channel list has one value per
      frame, and value `f` of channel `i` of joint `n` is `rots[f][n][i]`. */
  lemma SplitRotationsTranspose<T>(rots: seq<seq<seq<T>>>)
    requires Rectangular(rots)
    ensures SplitRotations(rots).Ok?
    ensures forall n, i :: 0 <= n < JointCount && 0 <= i < ChannelCount ==>
      |SplitRotations(rots).value[n][i]| == |rots|
    ensures forall n, i, f :: 0 <= n < JointCount && 0 <= i < ChannelCount && 0 <= f < |rots| ==>
      SplitRotations(rots).value[n][i][f] == rots[f][n][i]
  {
    forall n, i | 0 <= n < JointCount && 0 <= i < ChannelCount
      ensures |Channel(rots, n, i)| == |rots|
      ensures forall f :: 0 <= f < |rots| ==> Channel(rots, n, i)[f] == rots[f][n][i]
    {
      ChannelOfRectangular(rots, n, i);
    }
  }

  lemma {:induction false} ChannelOfRectangular<T>(rots: seq<seq<seq<T>>>, n: nat, i: nat)
    requires Rectangular(rots) && n < JointCount && i < ChannelCount
    ensures |Channel(rots, n, i)| == |rots|
    ensures forall f :: 0 <= f < |rots| ==> Channel(rots, n, i)[f] == rots[f][n][i]
  {
    if rots != [] {
      assert Rectangular(rots[1..]) by {
        forall f | 0 <= f < |rots[1..]|
          ensures |rots[1..][f]| == JointCount
          ensures forall m :: 0 <= m < JointCount ==> |rots[1..][f][m]| == ChannelCount
        {
          assert rots[1..][f] == rots[f + 1];
        }
      }
      ChannelOfRectangular(rots[1..], n, i);
      assert |rots[0]| == JointCount && |rots[0][n]| == ChannelCount;
    }
  }

  /** A channel is empty exactly when no frame carries it. */
  lemma {:induction false} ChannelEmpty<T>(rots: seq<seq<seq<T>>>, n: nat, i: nat)
    ensures Channel(rots, n, i) == [] <==>
      forall f :: 0 <= f < |rots| ==> !(n < |rots[f]| && i < |rots[f][n]|)
  {
    if rots != [] {
      ChannelEmpty(rots[1..], n, i);
      assert forall f :: 1 <= f < |rots| ==> rots[1..][f - 1] == rots[f];
    }
  }

  // ------------------------------------------------------------ keying

  /** `_set_rotations` keys joint `n` unless all of its channel lists are empty. */
  predicate HasRotation<T>(g: seq<seq<seq<T>>>, n: nat)
    requires IsGrid(g) && n < JointCount
  {
    !(forall i :: 0 <= i < ChannelCount ==> g[n][i] == [])
  }

  /** The joints `_set_rotations` keys, with the frame count it passes for each: the length
      of channel X of joint 0 (`len(rots[0][0])`), whichever joint is keyed. */
  function SetRotations<T>(g: seq<seq<seq<T>>>): (keys: seq<(nat, nat)>)
    requires IsGrid(g)
    ensures forall n: nat, len: nat :: (n, len) in keys <==> n < JointCount && HasRotation(g, n) && len == |g[0][0]|
    ensures forall k, k' :: 0 <= k < k' < |keys| ==> keys[k].0 < keys[k'].0
  {
    KeyedFromMembers(g);
    KeyedFrom(g, 0)
  }

  /** The keys for joints `n..16`, in joint order. */
  function KeyedFrom<T>(g: seq<seq<seq<T>>>, n: nat): (keys: seq<(nat, nat)>)
    requires IsGrid(g) && n <= JointCount
    ensures forall k :: 0 <= k < |keys| ==>
      n <= keys[k].0 < JointCount && HasRotation(g, keys[k].0) && keys[k].1 == |g[0][0]|
    ensures forall m :: n <= m < JointCount && HasRotation(g, m) ==> (m, |g[0][0]|) in keys
    ensures forall k, k' :: 0 <= k < k' < |keys| ==> keys[k].0 < keys[k'].0
    decreases JointCount - n
  {
    if n == JointCount then []
    else
      var rest := KeyedFrom(g, n + 1);
      if HasRotation(g, n) then [(n, |g[0][0]|)] + rest else rest
  }

  lemma KeyedFromMembers<T>(g: seq<seq<seq<T>>>)
    requires IsGrid(g)
    ensures forall n: nat, len: nat :: (n, len) in KeyedFrom(g, 0) <==>
      n < JointCount && HasRotation(g, n) && len == |g[0][0]|
  {
    var keys := KeyedFrom(g, 0);
    forall n: nat, len: nat
      ensures (n, len) in keys <==> n < JointCount && HasRotation(g, n) && len == |g[0][0]|
    {
      if (n, len) in keys {
        var k :| 0 <= k < |keys| && keys[k] == (n, len);
      }
    }
  }

  /** After the reshape, joint `n` is keyed exactly when some frame has a non-empty
      channel list for it. */
  lemma KeyedAfterSplit<T>(rots: seq<seq<seq<T>>>, n: nat)
    requires SplitRotations(rots).Ok? && n < JointCount
    ensures HasRotation(SplitRotations(rots).value, n) <==>
      exists f :: 0 <= f < |rots| && n < |rots[f]| && |rots[f][n]| > 0
  {
    var g := SplitRotations(rots).value;
    forall i | 0 <= i < ChannelCount {
      ChannelEmpty(rots, n, i);
    }
    if exists f :: 0 <= f < |rots| && n < |rots[f]| && |rots[f][n]| > 0 {
      var f :| 0 <= f < |rots| && n < |rots[f]| && |rots[f][n]| > 0;
      assert !FrameOverflows(rots[f]);
      assert g[n][0] != [];
    }
  }

  // ------------------------------------------------------------ child lookup

  /** `[pair[1] for pair in pairs if pair[0] == n]`. */
  function Outgoing(pairs: seq<Pair>, n: nat): (cs: seq<nat>)
    ensures cs == [] <==> !HasChild(pairs, n)
  {
    if pairs == [] then []
    else
      var rest := Outgoing(pairs[1..], n);
      assert HasChild(pairs[1..], n) ==> HasChild(pairs, n) by {
        if HasChild(pairs[1..], n) {
          var i :| 0 <= i < |pairs[1..]| && pairs[1..][i].0 == n;
          assert pairs[i + 1].0 == n;
        }
      }
      assert HasChild(pairs, n) && pairs[0].0 != n ==> HasChild(pairs[1..], n) by {
        if HasChild(pairs, n) && pairs[0].0 != n {
          var i :| 0 <= i < |pairs| && pairs[i].0 == n;
          assert pairs[1..][i - 1].0 == n;
        }
      }
      (if pairs[0].0 == n then [pairs[0].1] else []) + rest
  }

  /** Entry `k` is the first pair headed by `n`. */
  predicate FirstHeaded(pairs: seq<Pair>, n: nat, k: int) {
    0 <= k < |pairs| && pairs[k].0 == n && forall j :: 0 <= j < k ==> pairs[j].0 != n
  }

  /** Entry `k` is the last pair headed by `n`. */
  predicate LastHeaded(pairs: seq<Pair>, n: nat, k: int) {
    0 <= k < |pairs| && pairs[k].0 == n && forall j :: k < j < |pairs| ==> pairs[j].0 != n
  }

  /** The child joint `n` aims at in `create_skeleton`: the first pair headed by `n`, or
      for the root the last one; `IndexError` when `n` heads no pair. */
  function ChildOf(pairs: seq<Pair>, n: nat): (r: Result<nat>)
    ensures r.Ok? <==> HasChild(pairs, n)
    ensures r.Err? ==> r.error == IndexError
    ensures r.Ok? && n != 0 ==> exists k :: FirstHeaded(pairs, n, k) && pairs[k].1 == r.value
    ensures r.Ok? && n == 0 ==> exists k :: LastHeaded(pairs, n, k) && pairs[k].1 == r.value
  {
    var cs := Outgoing(pairs, n);
    if cs == [] then Err(IndexError)
    else if n != 0 then
      OutgoingFirst(pairs, n);
      Ok(cs[0])
    else
      OutgoingLast(pairs, n);
      Ok(cs[|cs| - 1])
  }

  lemma {:induction false} OutgoingFirst(pairs: seq<Pair>, n: nat)
    requires Outgoing(pairs, n) != []
    ensures exists k :: FirstHeaded(pairs, n, k) && pairs[k].1 == Outgoing(pairs, n)[0]
  {
    if pairs[0].0 != n {
      OutgoingFirst(pairs[1..], n);
      var k :| FirstHeaded(pairs[1..], n, k) && pairs[1..][k].1 == Outgoing(pairs[1..], n)[0];
      assert pairs[k + 1] == pairs[1..][k];
      assert forall j :: 1 <= j < k + 1 ==> pairs[j] == pairs[1..][j - 1];
      assert FirstHeaded(pairs, n, k + 1);
    } else {
      assert FirstHeaded(pairs, n, 0);
    }
  }

  lemma {:induction false} OutgoingLast(pairs: seq<Pair>, n: nat)
    requires Outgoing(pairs, n) != []
    ensures exists k :: LastHeaded(pairs, n, k) && pairs[k].1 == Outgoing(pairs, n)[|Outgoing(pairs, n)| - 1]
  {
    var rest := Outgoing(pairs[1..], n);
    if rest != [] {
      OutgoingLast(pairs[1..], n);
      var k :| LastHeaded(pairs[1..], n, k) && pairs[1..][k].1 == rest[|rest| - 1];
      assert pairs[k + 1] == pairs[1..][k];
      assert forall j :: k + 1 < j < |pairs| ==> pairs[j] == pairs[1..][j - 1];
      assert LastHeaded(pairs, n, k + 1);
    } else {
      assert !HasChild(pairs[1..], n);
      assert forall j :: 0 < j < |pairs| ==> pairs[j] == pairs[1..][j - 1];
      assert LastHeaded(pairs, n, 0);
    }
  }

  /** A joint other than the root aims at the child of its first pair. */
  lemma ChildOfFirst(pairs: seq<Pair>, n: nat, k: nat)
    requires n != 0 && FirstHeaded(pairs, n, k)
    ensures ChildOf(pairs, n) == Ok(pairs[k].1)
  {
    assert HasChild(pairs, n);
    var other :| FirstHeaded(pairs, n, other) && pairs[other].1 == ChildOf(pairs, n).value;
    assert FirstHeaded(pairs, n, other);
  }

  /** The root aims at the child of its last pair. */
  lemma ChildOfLast(pairs: seq<Pair>, k: nat)
    requires LastHeaded(pairs, 0, k)
    ensures ChildOf(pairs, 0) == Ok(pairs[k].1)
  {
    assert HasChild(pairs, 0);
    var other :| LastHeaded(pairs, 0, other) && pairs[other].1 == ChildOf(pairs, 0).value;
    assert LastHeaded(pairs, 0, other);
  }

  /** The child a joint aims at is one of the children the table names. */
  lemma ChildBounded(pairs: seq<Pair>, n: nat, bound: nat)
    requires forall i :: 0 <= i < |pairs| ==> pairs[i].1 < bound
    requires ChildOf(pairs, n).Ok?
    ensures ChildOf(pairs, n).value < bound
  {
    if n == 0 {
      var k :| LastHeaded(pairs, n, k) && pairs[k].1 == ChildOf(pairs, n).value;
      assert LastHeaded(pairs, n, k);
    } else {
      var k :| FirstHeaded(pairs, n, k) && pairs[k].1 == ChildOf(pairs, n).value;
      assert FirstHeaded(pairs, n, k);
    }
  }

  /** On the skeleton table the hip aims at the upper spine, its last pair. */
  lemma HipChild()
    ensures ChildOf(VideoPosePairs, 0) == Ok(7)
  {
    assert LastHeaded(VideoPosePairs, 0, 6);
    ChildOfLast(VideoPosePairs, 6);
  }

  /** The lower spine aims at the neck, its first pair. */
  lemma SpineChild()
    ensures ChildOf(VideoPosePairs, 8) == Ok(9)
  {
    assert FirstHeaded(VideoPosePairs, 8, 8);
    ChildOfFirst(VideoPosePairs, 8, 8);
  }

  /** Exactly the end joints aim at nothing. */
  lemma LeafChildren()
    ensures forall n :: 0 <= n < JointCount ==> (ChildOf(VideoPosePairs, n).Err? <==> n in KeySkips)
  {
    VideoPoseLeaves();
  }

  /** A joint of one frame, reduced to how many coordinates it carries. */
  type Frame = seq<nat>

  /** The `try` block of `create_skeleton` for joint `n` of a frame keys a rotation: the
      child lookup succeeds, the child is a joint of the frame and one of the 17 objects
      (`self.objs[idx2]` is printed), and both points have three coordinates. Any
      `IndexError` on the way is swallowed and nothing is keyed. */
  predicate RotationKeyed(pairs: seq<Pair>, frame: Frame, n: nat)
    requires n < |frame|
  {
    match ChildOf(pairs, n)
    case Err(_) => false
    case Ok(c) => c < |frame| && c < JointCount && frame[n] >= 3 && frame[c] >= 3
  }

  /** The rotation keys a run of `create_skeleton` sets, as (time, joint) pairs in the
      order it sets them, and the exception that ended the run, if any. Keys set before
      the exception stay set in the scene. */
  datatype Keying = Keying(keys: seq<(nat, nat)>, failure: Option<PyError>)

  /** The rotation keys `create_skeleton` sets for joints `n..` of one frame, at time `t`.
      A frame with more than 17 joints raises `IndexError` from `self.objs[17]`, which is
      outside the `try`, after joints 0 to 16 have been keyed. */
  function FrameKeys(pairs: seq<Pair>, frame: Frame, t: nat, n: nat): (r: Keying)
    requires n <= |frame|
    ensures r.failure.Some? <==> n < |frame| && |frame| > JointCount
    ensures r.failure.Some? ==> r.failure.value == IndexError
    ensures forall s: nat, m: nat :: (s, m) in r.keys <==>
      s == t && n <= m < |frame| && m < JointCount && RotationKeyed(pairs, frame, m)
    decreases |frame| - n
  {
    if n == |frame| then Keying([], None)
    else if n >= JointCount then Keying([], Some(IndexError))
    else
      var rest := FrameKeys(pairs, frame, t, n + 1);
      Keying(if RotationKeyed(pairs, frame, n) then [(t, n)] + rest.keys else rest.keys, rest.failure)
  }

  /** No frame before frame `f` has more than 17 joints: the loop gets to frame `f`. */
  predicate Reached(frames: seq<Frame>, f: nat)
    requires f <= |frames|
  {
    forall g :: 0 <= g < f ==> |frames[g]| <= JointCount
  }

  /** The rotation keys `create_skeleton` sets for `frames`, where frame `f` is keyed at
      time `f + 1`. The loop stops at the first frame with more than 17 joints; the keys
      set up to that point, that frame's joints 0 to 16 included, are kept. The Maya
      calls are taken not to raise, frame 0's `cmds.xform` of each point included. */
  function CreateSkeletonKeys(pairs: seq<Pair>, frames: seq<Frame>): (r: Keying)
    ensures r.failure.Some? <==> exists f :: 0 <= f < |frames| && |frames[f]| > JointCount
    ensures r.failure.Some? ==> r.failure.value == IndexError
    ensures forall t: nat, m: nat :: (t, m) in r.keys <==>
      1 <= t <= |frames| && Reached(frames, t - 1) && m < |frames[t - 1]| && m < JointCount &&
      RotationKeyed(pairs, frames[t - 1], m)
    decreases |frames|
  {
    if frames == [] then Keying([], None)
    else
      var front := frames[..|frames| - 1];
      assert forall f :: 0 <= f < |front| ==> front[f] == frames[f];
      var before := CreateSkeletonKeys(pairs, front);
      if before.failure.Some? then
        StoppedBefore(pairs, frames, before.keys);
        before
      else
        var last := FrameKeys(pairs, frames[|frames| - 1], |frames|, 0);
        KeysAppend(pairs, frames, before.keys, last.keys);
        Keying(before.keys + last.keys, last.failure)
  }

  /** A run stopped before the last frame keeps only the keys it had set. */
  lemma StoppedBefore(pairs: seq<Pair>, frames: seq<Frame>, earlier: seq<(nat, nat)>)
    requires frames != []
    requires exists f :: 0 <= f < |frames| - 1 && |frames[f]| > JointCount
    requires forall t: nat, m: nat :: (t, m) in earlier <==>
      1 <= t <= |frames| - 1 && Reached(frames[..|frames| - 1], t - 1) &&
      m < |frames[..|frames| - 1][t - 1]| && m < JointCount && RotationKeyed(pairs, frames[..|frames| - 1][t - 1], m)
    ensures forall t: nat, m: nat :: (t, m) in earlier <==>
      1 <= t <= |frames| && Reached(frames, t - 1) && m < |frames[t - 1]| && m < JointCount &&
      RotationKeyed(pairs, frames[t - 1], m)
  {
    var front := frames[..|frames| - 1];
    var g :| 0 <= g < |frames| - 1 && |frames[g]| > JointCount;
    assert !Reached(frames, |frames| - 1) by {
      assert |frames[g]| > JointCount;
    }
    forall t: nat, m: nat
      ensures (t, m) in earlier <==>
        1 <= t <= |frames| && Reached(frames, t - 1) && m < |frames[t - 1]| && m < JointCount &&
        RotationKeyed(pairs, frames[t - 1], m)
    {
      if 1 <= t <= |frames| - 1 {
        assert front[t - 1] == frames[t - 1];
        assert Reached(front, t - 1) <==> Reached(frames, t - 1) by {
          assert forall h :: 0 <= h < t - 1 ==> front[h] == frames[h];
        }
      }
    }
  }

  /** The keys of the frames before the last, then those of the last frame. */
  lemma KeysAppend(pairs: seq<Pair>, frames: seq<Frame>, earlier: seq<(nat, nat)>, last: seq<(nat, nat)>)
    requires frames != []
    requires Reached(frames, |frames| - 1)
    requires forall t: nat, m: nat :: (t, m) in earlier <==>
      1 <= t <= |frames| - 1 && Reached(frames[..|frames| - 1], t - 1) &&
      m < |frames[..|frames| - 1][t - 1]| && m < JointCount && RotationKeyed(pairs, frames[..|frames| - 1][t - 1], m)
    requires forall s: nat, m: nat :: (s, m) in last <==>
      s == |frames| && 0 <= m < |frames[|frames| - 1]| && m < JointCount && RotationKeyed(pairs, frames[|frames| - 1], m)
    ensures forall t: nat, m: nat :: (t, m) in earlier + last <==>
      1 <= t <= |frames| && Reached(frames, t - 1) && m < |frames[t - 1]| && m < JointCount &&
      RotationKeyed(pairs, frames[t - 1], m)
  {
    var front := frames[..|frames| - 1];
    forall t: nat, m: nat
      ensures (t, m) in earlier + last <==>
        1 <= t <= |frames| && Reached(frames, t - 1) && m < |frames[t - 1]| && m < JointCount &&
        RotationKeyed(pairs, frames[t - 1], m)
    {
      if 1 <= t <= |frames| - 1 {
        assert front[t - 1] == frames[t - 1];
        assert Reached(front, t - 1) && Reached(frames, t - 1) by {
          assert forall h :: 0 <= h < t - 1 ==> front[h] == frames[h];
        }
      }
    }
  }

  /** A frame of 17 three-dimensional points. */
  predicate FullFrame(frame: Frame) {
    |frame| == JointCount && forall n :: 0 <= n < JointCount ==> frame[n] == 3
  }

  /** On such a frame the skeleton table keys a rotation on exactly the joints that are not
      end joints. */
  lemma RotationKeyedVideoPose(frame: Frame, m: nat)
    requires FullFrame(frame) && m < JointCount
    ensures RotationKeyed(VideoPosePairs, frame, m) <==> m !in KeySkips
  {
    LeafChildren();
    if m !in KeySkips {
      VideoPoseBounds();
      ChildBounded(VideoPosePairs, m, JointCount);
    }
  }

  /** When every frame keys the same joints, the keys are those joints at every time. */
  lemma CreateSkeletonUniform(pairs: seq<Pair>, frames: seq<Frame>, keyed: nat -> bool)
    requires forall f :: 0 <= f < |frames| ==> FullFrame(frames[f])
    requires forall f, m :: 0 <= f < |frames| && 0 <= m < |frames[f]| ==>
      (RotationKeyed(pairs, frames[f], m) <==> keyed(m))
    ensures CreateSkeletonKeys(pairs, frames).failure == None
    ensures forall t: nat, m: nat :: (t, m) in CreateSkeletonKeys(pairs, frames).keys <==>
      1 <= t <= |frames| && m < JointCount && keyed(m)
  {
    var keys := CreateSkeletonKeys(pairs, frames).keys;
    forall t: nat, m: nat
      ensures (t, m) in keys <==> 1 <= t <= |frames| && m < JointCount && keyed(m)
    {
      if 1 <= t <= |frames| && m < JointCount {
        assert Reached(frames, t - 1);
        assert RotationKeyed(pairs, frames[t - 1], m) <==> keyed(m);
      }
    }
  }

  /** Not an end joint. */
  predicate Inner(m: nat) {
    m !in KeySkips
  }

  /** Every frame keys exactly the joints that are not end joints, frame `f` at time
      `f + 1`. */
  lemma CreateSkeletonVideoPose(frames: seq<Frame>)
    requires forall f :: 0 <= f < |frames| ==> FullFrame(frames[f])
    ensures CreateSkeletonKeys(VideoPosePairs, frames).failure == None
    ensures forall t: nat, m: nat :: (t, m) in CreateSkeletonKeys(VideoPosePairs, frames).keys <==>
      1 <= t <= |frames| && m < JointCount && Inner(m)
  {
    forall f, m | 0 <= f < |frames| && 0 <= m < |frames[f]|
      ensures RotationKeyed(VideoPosePairs, frames[f], m) <==> Inner(m)
    {
      RotationKeyedVideoPose(frames[f], m);
    }
    CreateSkeletonUniform(VideoPosePairs, frames, Inner);
  }

  // ------------------------------------------------------------ joint lookup

  /** The joint lists a `VideoPose3D_Skeleton` builds. */
  datatype Skeleton = Skeleton(jnts: seq<string>, jntsProj: seq<string>, drivers: seq<string>)

  /** The list `_jnt_lookup` searches: the projections if asked, else the drivers if
      asked, else the joints. */
  function Searched(sk: Skeleton, proj: bool, drivers: bool): (names: seq<string>)
    ensures proj ==> names == sk.jntsProj
    ensures !proj && drivers ==> names == sk.drivers
    ensures !proj && !drivers ==> names == sk.jnts
  {
    if proj then sk.jntsProj else if drivers then sk.drivers else sk.jnts
  }

  /** `int(name.rsplit("_", 2)[1])`. */
  function NameNumber(name: string): (r: Result<int>)
    ensures '_' !in name ==> r == Err(IndexError)
  {
    var field :- Fields.RSplitSecond(name, '_');
    match Text.PyInt(field)
    case None => Err(ValueError)
    case Some(v) => Ok(v)
  }

  /** The name's number parses and is not `idx`: the loop moves on. */
  predicate PassesOver(name: string, idx: int) {
    NameNumber(name).Ok? && NameNumber(name).value != idx
  }

  /** Name `k` is where the loop of `_jnt_lookup` stops: the first name it does not pass
      over. */
  predicate FirstStop(names: seq<string>, idx: int, k: int) {
    0 <= k < |names| && !PassesOver(names[k], idx) && forall j :: 0 <= j < k ==> PassesOver(names[j], idx)
  }

  /** What the loop returns when it stops at `name`: the name if its number is the one
      sought, else the exception reading the number raised. */
  function StopOutcome(name: string): Result<Option<string>> {
    match NameNumber(name)
    case Ok(_) => Ok(Some(name))
    case Err(e) => Err(e)
  }

  /** The loop of `_jnt_lookup`. */
  function FindJoint(names: seq<string>, idx: int): (r: Result<Option<string>>)
    ensures r == Ok(None) <==> forall k :: 0 <= k < |names| ==> PassesOver(names[k], idx)
    ensures forall k :: FirstStop(names, idx, k) ==> r == StopOutcome(names[k])
    ensures r.Ok? && r.value.Some? ==> r.value.value in names && NameNumber(r.value.value) == Ok(idx)
  {
    if names == [] then Ok(None)
    else
      var rest := FindJoint(names[1..], idx);
      assert forall j :: 1 <= j < |names| ==> names[j] == names[1..][j - 1];
      assert forall k :: FirstStop(names, idx, k) && k > 0 ==> FirstStop(names[1..], idx, k - 1);
      match NameNumber(names[0])
      case Err(e) => Err(e)
      case Ok(v) => if v == idx then Ok(Some(names[0])) else rest
  }

  /** `_jnt_lookup`: `None` when every searched name carries a number other than `idx`;
      otherwise the first name that carries `idx`, unless an earlier name's number does
      not parse, which raises. */
  function JntLookup(sk: Skeleton, idx: int, proj: bool, drivers: bool): (r: Result<Option<string>>)
    ensures r == Ok(None) <==> forall k :: 0 <= k < |Searched(sk, proj, drivers)| ==>
      PassesOver(Searched(sk, proj, drivers)[k], idx)
    ensures r.Ok? && r.value.Some? ==>
      r.value.value in Searched(sk, proj, drivers) && NameNumber(r.value.value) == Ok(idx)
    ensures forall k :: FirstStop(Searched(sk, proj, drivers), idx, k) ==>
      r == StopOutcome(Searched(sk, proj, drivers)[k])
  {
    FindJoint(Searched(sk, proj, drivers), idx)
  }

  /** The names `_skeleton` gives joint `id`: `jnt_<id>_<suffix>` and
      `anim_jnt_driver_<id>_<suffix>`. */
  function JointName(stem: string, id: nat, suffix: string): string {
    stem + "_" + Text.NatToString(id) + "_" + suffix
  }

  /** Names built by `_skeleton` read back to their joint number when the suffix has no
      underscore. */
  lemma JointNameNumber(stem: string, id: nat, suffix: string)
    requires '_' !in suffix
    ensures NameNumber(JointName(stem, id, suffix)) == Ok(id)
  {
    var digits := Text.NatToString(id);
    assert '_' !in digits by {
      assert forall k :: 0 <= k < |digits| ==> Text.IsDigit(digits[k]);
    }
    Fields.RSplitSecondOf(stem, digits, suffix, '_');
    assert JointName(stem, id, suffix) == stem + ['_'] + digits + ['_'] + suffix;
    Text.PyIntSpacePadded(id, 0);
    assert Text.Repeat(' ', 0) + digits == digits;
  }

  /** The joints of one `_skeleton` run: ids `0..count-1` in order. */
  function SkeletonNames(stem: string, count: nat, suffix: string): (names: seq<string>)
    ensures |names| == count
  {
    seq(count, id requires 0 <= id < count => JointName(stem, id, suffix))
  }

  /** The lists `_skeleton` fills for `count` joints: the joints `jnt_<id>_<suffix>`, the
      driver locators `anim_jnt_driver_<id>_<suffix>`, and no projections (their creation
      is commented out). */
  function SkeletonOf(count: nat, suffix: string): Skeleton {
    Skeleton(SkeletonNames("jnt", count, suffix), [], SkeletonNames("anim_jnt_driver", count, suffix))
  }

  /** `_jnt_lookup` on the lists `_skeleton` built finds joint `idx`, or its driver, when
      it exists and returns `None` otherwise; the empty projection list finds nothing. */
  lemma JntLookupSkeleton(count: nat, suffix: string, idx: int, proj: bool, drivers: bool)
    requires '_' !in suffix
    ensures JntLookup(SkeletonOf(count, suffix), idx, proj, drivers) ==
      if proj || !(0 <= idx < count) then Ok(None)
      else Ok(Some(JointName(if drivers then "anim_jnt_driver" else "jnt", idx, suffix)))
  {
    if !proj {
      FindSkeletonJoint(if drivers then "anim_jnt_driver" else "jnt", count, suffix, idx);
    }
  }

  /** The loop of `_jnt_lookup` over one list `_skeleton` built. */
  lemma FindSkeletonJoint(stem: string, count: nat, suffix: string, idx: int)
    requires '_' !in suffix
    ensures FindJoint(SkeletonNames(stem, count, suffix), idx) ==
      if 0 <= idx < count then Ok(Some(JointName(stem, idx, suffix))) else Ok(None)
  {
    var names := SkeletonNames(stem, count, suffix);
    forall k | 0 <= k < count
      ensures NameNumber(names[k]) == Ok(k)
    {
      JointNameNumber(stem, k, suffix);
    }
    if 0 <= idx < count {
      assert FirstStop(names, idx, idx);
    }
  }

  /** A suffix with an underscore shifts the field `rsplit` picks: `jnt_0_vp_3d` reads
      `vp` and `int()` raises `ValueError`. */
  lemma SuffixWithUnderscore()
    ensures NameNumber("jnt_0_vp_3d") == Err(ValueError)
  {
    Fields.RSplitSecondOf("jnt_0", "vp", "3d", '_');
    assert "jnt_0_vp_3d" == "jnt_0" + ['_'] + "vp" + ['_'] + "3d";
    Text.PyIntRejects("vp");
  }

  // ------------------------------------------------------------ pairs

  /** `sorted(VideoPosePairs)`: lists compare lexicographically. */
  const SortedPairs: seq<Pair> := [
    (0, 1), (0, 4), (0, 7), (1, 2), (2, 3), (4, 5), (5, 6), (7, 8),
    (8, 9), (8, 11), (8, 14), (9, 10), (11, 12), (12, 13), (14, 15), (15, 16)]

  predicate PairLess(a: Pair, b: Pair) {
    a.0 < b.0 || (a.0 == b.0 && a.1 < b.1)
  }

  /** The sorted table is strictly increasing and holds the same pairs as the original, so
      it is what `sorted` returns. */
  lemma SortedPairsSorted()
    ensures forall k :: 0 <= k < |SortedPairs| - 1 ==> PairLess(SortedPairs[k], SortedPairs[k + 1])
    ensures |SortedPairs| == |VideoPosePairs|
    ensures forall p :: p in SortedPairs <==> p in VideoPosePairs
  {
  }

  /** The parents `_orientate` skips. */
  const OrientSkips: seq<nat> := [0, 7, 8, 9, 10]

  /** The pairs `_orientate` processes, in order. */
  function Oriented(pairs: seq<Pair>): (r: seq<Pair>)
    ensures forall p :: p in r <==> p in pairs && p.0 !in OrientSkips
    ensures |r| <= |pairs|
  {
    if pairs == [] then []
    else (if pairs[0].0 in OrientSkips then [] else [pairs[0]]) + Oriented(pairs[1..])
  }

  /** On the sorted table these are the pairs of the two legs and the two arms. */
  lemma OrientedVideoPose()
    ensures forall p :: p in Oriented(SortedPairs) <==> p in VideoPosePairs && p.0 in [1, 2, 4, 5, 11, 12, 14, 15]
  {
    SortedPairsSorted();
    LimbParents();
  }

  lemma LimbParents()
    ensures forall p :: p in VideoPosePairs ==> (p.0 !in OrientSkips <==> p.0 in [1, 2, 4, 5, 11, 12, 14, 15])
  {
    assert forall i :: 0 <= i < |VideoPosePairs| ==> VideoPosePairs[i].0 in [0, 1, 2, 4, 5, 7, 8, 9, 11, 12, 14, 15];
  }
}
