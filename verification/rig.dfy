/** The pure parts of righelper.py: matching joints by the digits in their names
    (`joint_search`), grouping a curve's keys into runs of equal values
    (`get_key_ranges`), and the window arithmetic of `unchanging_ranges`. */
module Rig {
  import opened Results
  import opened Text
  import Fields

  // ------------------------------------------------------------ joint_search

  /** `''.join(filter(str.isdigit, s))`. */
  function Digits(s: string): (d: string)
    ensures AllDigits(d) && |d| <= |s|
    ensures AllDigits(s) ==> d == s
    ensures d == [] <==> NoDigits(s)
  {
    if s == [] then []
    else
      assert forall i :: 1 <= i < |s| ==> s[i] == s[1..][i - 1];
      (if IsDigit(s[0]) then [s[0]] else []) + Digits(s[1..])
  }

  predicate NoDigits(s: string) {
    forall i :: 0 <= i < |s| ==> !IsDigit(s[i])
  }

  /** The part of a joint name `joint_search` inspects: after the last `|` of a DAG
      path, or the whole name. */
  function ShortName(name: string): (s: string)
    ensures '|' !in s
    ensures '|' !in name ==> s == name
  {
    if '|' in name then Fields.LastField(name, '|')
    else
      Fields.JoinSplit(name, '|');
      Fields.CountZero(name, '|');
      Fields.LastField(name, '|')
  }

  /** The digits of the short name, read together, spell `str(idx)` exactly. */
  predicate JointMatches(name: string, idx: int) {
    Digits(ShortName(name)) == IntToString(idx)
  }

  /** The joints of `joints` that match `idx` by `rule`, in order. The search is stated
      for any matching rule; `joint_search` uses `JointMatches`. */
  function Matching(rule: (string, int) -> bool, joints: seq<string>, idx: int): (r: seq<string>)
    ensures |r| <= |joints|
  {
    if joints == [] then []
    else
      var front := joints[..|joints| - 1];
      Matching(rule, front, idx) + (if rule(joints[|joints| - 1], idx) then [joints[|joints| - 1]] else [])
  }

  /** What `joint_search` returns: for each id in order, the matching joints in order. */
  function SearchResult(rule: (string, int) -> bool, joints: seq<string>, ids: seq<int>): seq<string> {
    if ids == [] then [] else Matching(rule, joints, ids[0]) + SearchResult(rule, joints, ids[1..])
  }

  /** The outer loop of `joint_search`, over the ids. */
  method JointSearch(joints: seq<string>, ids: seq<int>) returns (res: seq<string>)
    ensures res == SearchResult(JointMatches, joints, ids)
  {
    res := [];
    var i := 0;
    while i < |ids|
      invariant 0 <= i <= |ids|
      invariant res == SearchResult(JointMatches, joints, ids[..i])
    {
      var found := MatchJoints(joints, ids[i]);
      res := res + found;
      ghost var done := ids[..i];
      assert ids[..i + 1] == done + [ids[i]];
      SearchSnoc(JointMatches, joints, done, ids[i]);
      i := i + 1;
    }
    assert ids[..i] == ids;
  }

  /** The inner loop of `joint_search`, over the joints, for one id. */
  method MatchJoints(joints: seq<string>, idx: int) returns (found: seq<string>)
    ensures found == Matching(JointMatches, joints, idx)
  {
    found := [];
    var n := 0;
    while n < |joints|
      invariant 0 <= n <= |joints|
      invariant found == Matching(JointMatches, joints[..n], idx)
    {
      assert joints[..n + 1][..n] == joints[..n];
      if JointMatches(joints[n], idx) {
        found := found + [joints[n]];
      }
      n := n + 1;
    }
    assert joints[..n] == joints;
  }

  /** A joint is in the matches exactly when it is one of the joints and matches. */
  lemma {:induction false} MatchingMembers(rule: (string, int) -> bool, joints: seq<string>, idx: int, x: string)
    ensures x in Matching(rule, joints, idx) <==> x in joints && rule(x, idx)
  {
    if joints != [] {
      var front := joints[..|joints| - 1];
      MatchingMembers(rule, front, idx, x);
      assert joints == front + [joints[|joints| - 1]];
    }
  }

  /** The results are grouped by id: searching for two lists of ids is searching for
      each and concatenating, so a repeated id repeats its matches. */
  lemma {:induction false} SearchConcat(rule: (string, int) -> bool, joints: seq<string>, ids: seq<int>, more: seq<int>)
    ensures SearchResult(rule, joints, ids + more) == SearchResult(rule, joints, ids) + SearchResult(rule, joints, more)
  {
    if ids == [] {
      assert ids + more == more;
    } else {
      SearchConcat(rule, joints, ids[1..], more);
      var m := Matching(rule, joints, ids[0]);
      assert (ids + more)[0] == ids[0] && (ids + more)[1..] == ids[1..] + more;
      assert SearchResult(rule, joints, ids + more) == m + SearchResult(rule, joints, ids[1..] + more);
      ConcatAssoc(m, SearchResult(rule, joints, ids[1..]), SearchResult(rule, joints, more));
    }
  }

  lemma ConcatAssoc<T>(a: seq<T>, b: seq<T>, c: seq<T>)
    ensures a + (b + c) == (a + b) + c
  {
  }

  /** Searching one more id appends its matches. */
  lemma SearchSnoc(rule: (string, int) -> bool, joints: seq<string>, ids: seq<int>, idx: int)
    ensures SearchResult(rule, joints, ids + [idx]) == SearchResult(rule, joints, ids) + Matching(rule, joints, idx)
  {
    SearchConcat(rule, joints, ids, [idx]);
    assert SearchResult(rule, joints, [idx]) == Matching(rule, joints, idx) + SearchResult(rule, joints, []);
  }

  /** A joint is returned exactly when it is one of the joints and matches one of the
      ids. */
  lemma {:induction false} SearchMembers(rule: (string, int) -> bool, joints: seq<string>, ids: seq<int>, x: string)
    ensures x in SearchResult(rule, joints, ids) <==> x in joints && exists k :: 0 <= k < |ids| && rule(x, ids[k])
  {
    if ids != [] {
      SearchMembers(rule, joints, ids[1..], x);
      MatchingMembers(rule, joints, ids[0], x);
      if x in joints && exists k :: 0 <= k < |ids| && rule(x, ids[k]) {
        var k :| 0 <= k < |ids| && rule(x, ids[k]);
        if k > 0 {
          assert ids[1..][k - 1] == ids[k];
        }
      }
      if exists k :: 0 <= k < |ids[1..]| && rule(x, ids[1..][k]) {
        var k :| 0 <= k < |ids[1..]| && rule(x, ids[1..][k]);
        assert rule(x, ids[k + 1]);
      }
    }
  }

  /** With no joint matching any id, the result is empty. */
  lemma SearchNone(joints: seq<string>, ids: seq<int>)
    requires forall k, j :: 0 <= k < |ids| && 0 <= j < |joints| ==> !JointMatches(joints[j], ids[k])
    ensures SearchResult(JointMatches, joints, ids) == []
  {
    var r := SearchResult(JointMatches, joints, ids);
    if r != [] {
      SearchMembers(JointMatches, joints, ids, r[0]);
    }
  }

  /** Filtering digits commutes with concatenation: with the cases in `Digits`'s
      contract, the result is exactly the digits of the name in the order they occur. */
  lemma {:induction false} DigitsAppend(a: string, b: string)
    ensures Digits(a + b) == Digits(a) + Digits(b)
  {
    if a == [] {
      assert a + b == b;
    } else {
      var h := if IsDigit(a[0]) then [a[0]] else [];
      assert (a + b)[0] == a[0];
      assert (a + b)[1..] == a[1..] + b;
      assert Digits(a + b) == h + Digits(a[1..] + b);
      DigitsAppend(a[1..], b);
      assert Digits(a) == h + Digits(a[1..]);
      ConcatAssoc(h, Digits(a[1..]), Digits(b));
    }
  }

  /** A name without `|` is read whole. */
  lemma MatchesWhole(name: string, idx: int)
    requires '|' !in name
    ensures JointMatches(name, idx) <==> Digits(name) == IntToString(idx)
  {
  }

  lemma TwelveString()
    ensures IntToString(12) == "12"
  {
    assert NatToString(1) == "1";
  }

  /** All digits of the name count, wherever they stand: `l1_arm2` is joint 12. */
  lemma ScatteredDigitsMatch(pre: string, mid: string)
    requires '|' !in pre && '|' !in mid && NoDigits(pre) && NoDigits(mid)
    ensures JointMatches(pre + "1" + mid + "2", 12)
  {
    var name := pre + "1" + mid + "2";
    DigitsAppend(pre + "1" + mid, "2");
    DigitsAppend(pre + "1", mid);
    DigitsAppend(pre, "1");
    assert Digits("1") == "1" && Digits("2") == "2";
    assert Digits(name) == "12";
    MatchesWhole(name, 12);
    TwelveString();
  }

  /** The digits must spell the id exactly, so the leading zero of a name like `jnt_012`
      keeps it from being joint 12. */
  lemma LeadingZeroNoMatch(pre: string)
    requires '|' !in pre && NoDigits(pre)
    ensures !JointMatches(pre + "012", 12)
  {
    DigitsAppend(pre, "012");
    assert Digits("012") == "012";
    MatchesWhole(pre + "012", 12);
    TwelveString();
  }

  /** Only the last segment of a DAG path is read. */
  lemma ShortNameOfPath(parent: string, leaf: string)
    requires '|' !in leaf
    ensures ShortName(parent + ['|'] + leaf) == leaf
  {
    Fields.SplitAppend(parent, leaf, '|');
    Fields.SplitJoin([leaf], '|');
  }

  /** So `rig3|l1_arm2` is joint 12: the digits of the parent path are ignored. */
  lemma PathSegmentMatch(parent: string, pre: string, mid: string)
    requires '|' !in pre && '|' !in mid && NoDigits(pre) && NoDigits(mid)
    ensures JointMatches(parent + "|" + pre + "1" + mid + "2", 12)
  {
    var leaf := pre + "1" + mid + "2";
    ShortNameOfPath(parent, leaf);
    assert parent + "|" + pre + "1" + mid + "2" == parent + ['|'] + leaf;
    ScatteredDigitsMatch(pre, mid);
  }

  /** A negative id never matches: `str(idx)` starts with `-`, which is not a digit. */
  lemma NegativeNeverMatches(name: string, idx: int)
    requires idx < 0
    ensures !JointMatches(name, idx)
  {
  }

  // ------------------------------------------------------------ get_key_ranges

  /** A key: time and value. */
  type Key<V> = (int, V)

  /** The last key of every maximal run of equal consecutive values. */
  function RunEnds<V(==)>(s: seq<Key<V>>): seq<Key<V>> {
    if |s| <= 1 then s
    else (if s[0].1 != s[1].1 then [s[0]] else []) + RunEnds(s[1..])
  }

  /** `get_key_ranges`, following its loop: `add` holds the run being
      extended, and it is unbound until the first key has been seen. */
  method GetKeyRanges<V(==)>(keys: seq<Key<V>>) returns (r: Result<seq<Key<V>>>)
    ensures |keys| == 0 ==> r == Ok([])
    ensures |keys| == 1 ==> r == Err(UnboundLocalError)
    ensures |keys| >= 2 ==> r == Ok(RunEnds(keys[..|keys| - 1]))
  {
    var ranges: seq<Key<V>> := [];
    var last: Option<V> := None;
    var add: Option<Key<V>> := None;
    var n := 0;
    while n < |keys|
      invariant 0 <= n <= |keys|
      invariant n == 0 ==> add.None? && last.None? && ranges == []
      invariant 0 < n < |keys| ==> add == Some(keys[n - 1]) && last == Some(keys[n - 1].1)
      invariant 0 < n < |keys| ==> ranges + [keys[n - 1]] == RunEnds(keys[..n])
      invariant n == |keys| > 0 ==> |keys| >= 2 && ranges == RunEnds(keys[..|keys| - 1])
    {
      var (t, k) := keys[n];
      if n == |keys| - 1 {
        if add.None? {
          return Err(UnboundLocalError);
        }
        ranges := ranges + [add.value];
        n := n + 1;
        continue;
      }
      if last != Some(k) {
        if last.Some? {
          ranges := ranges + [add.value];
          RunEndsSnoc(keys[..n], keys[n]);
        }
        last := Some(k);
        add := Some((t, k));
      } else {
        RunEndsSnoc(keys[..n], keys[n]);
        add := Some((t, k));
      }
      assert keys[..n + 1] == keys[..n] + [keys[n]];
      n := n + 1;
    }
    return Ok(ranges);
  }

  /** Appending a key either extends the last run or starts a new one. */
  lemma {:induction false} RunEndsSnoc<V>(s: seq<Key<V>>, x: Key<V>)
    requires s != []
    ensures RunEnds(s) != [] && RunEnds(s)[|RunEnds(s)| - 1] == s[|s| - 1]
    ensures RunEnds(s + [x]) ==
      (if s[|s| - 1].1 == x.1 then RunEnds(s)[..|RunEnds(s)| - 1] else RunEnds(s)) + [x]
  {
    if |s| == 1 {
      assert (s + [x])[1..] == [x];
    } else {
      var t := s[1..];
      RunEndsSnoc(t, x);
      assert t[|t| - 1] == s[|s| - 1];
      var head: seq<Key<V>> := if s[0].1 != s[1].1 then [s[0]] else [];
      RunEndsCons(s);
      RunEndsConsSnoc(s, x);
      SnocShape(head, RunEnds(t), RunEnds(s), RunEnds(s + [x]), x, s[|s| - 1].1 == x.1);
    }
  }

  lemma SnocShape<T>(head: seq<T>, rest: seq<T>, all: seq<T>, more: seq<T>, x: T, same: bool)
    requires rest != [] && all == head + rest
    requires more == head + ((if same then rest[..|rest| - 1] else rest) + [x])
    ensures all != [] && all[|all| - 1] == rest[|rest| - 1]
    ensures more == (if same then all[..|all| - 1] else all) + [x]
  {
    LastOfConcat(head, rest, x);
  }

  lemma RunEndsConsSnoc<V>(s: seq<Key<V>>, x: Key<V>)
    requires |s| > 1
    ensures RunEnds(s + [x]) == (if s[0].1 != s[1].1 then [s[0]] else []) + RunEnds(s[1..] + [x])
  {
    RunEndsCons(s + [x]);
    assert (s + [x])[1..] == s[1..] + [x];
  }

  /** `RunEnds` on two or more keys, one step unfolded. */
  lemma RunEndsCons<V>(s: seq<Key<V>>)
    requires |s| > 1
    ensures RunEnds(s) == (if s[0].1 != s[1].1 then [s[0]] else []) + RunEnds(s[1..])
  {
  }

  lemma LastOfConcat<T>(head: seq<T>, rest: seq<T>, x: T)
    requires rest != []
    ensures (head + rest)[|head + rest| - 1] == rest[|rest| - 1]
    ensures (head + rest)[..|head + rest| - 1] + [x] == head + (rest[..|rest| - 1] + [x])
    ensures (head + rest) + [x] == head + (rest + [x])
  {
    assert (head + rest)[..|head + rest| - 1] == head + rest[..|rest| - 1];
  }

  /** Neighbouring runs have different values. */
  lemma {:induction false} RunEndsAlternate<V>(s: seq<Key<V>>)
    ensures forall k :: 0 <= k < |RunEnds(s)| - 1 ==> RunEnds(s)[k].1 != RunEnds(s)[k + 1].1
  {
    if |s| > 1 {
      RunEndsAlternate(s[1..]);
      RunEndsHead(s[1..]);
      var rest := RunEnds(s[1..]);
      if s[0].1 != s[1].1 {
        assert RunEnds(s) == [s[0]] + rest;
      }
    }
  }

  /** The first run ends on a key with the first key's value. */
  lemma {:induction false} RunEndsHead<V>(s: seq<Key<V>>)
    requires s != []
    ensures RunEnds(s) != [] && RunEnds(s)[0].1 == s[0].1
  {
    if |s| > 1 {
      RunEndsHead(s[1..]);
      RunEndsSnoc([s[0]], s[0]);
    }
  }

  /** Every run end is one of the keys, taken in order: when key times increase, so do
      the run ends' times, each bounded by the first and last key time. */
  lemma {:induction false} RunEndsTimes<V>(s: seq<Key<V>>)
    requires forall k :: 0 <= k < |s| - 1 ==> s[k].0 < s[k + 1].0
    ensures forall k :: 0 <= k < |RunEnds(s)| - 1 ==> RunEnds(s)[k].0 < RunEnds(s)[k + 1].0
    ensures forall k :: 0 <= k < |RunEnds(s)| ==> s[0].0 <= RunEnds(s)[k].0 <= s[|s| - 1].0
  {
    if |s| > 1 {
      RunEndsTimes(s[1..]);
      var rest := RunEnds(s[1..]);
      RunEndsHead(s[1..]);
      assert s[1..][0] == s[1];
      assert rest != [] && rest[0].0 >= s[1].0;
      if s[0].1 != s[1].1 {
        assert RunEnds(s) == [s[0]] + rest;
      }
    }
  }

  /** Keys of one value give one run; two values in two blocks give two runs. */
  lemma RunEndsExamples()
    ensures RunEnds([(1, 5), (2, 5), (3, 5)]) == [(3, 5)]
    ensures RunEnds([(1, 5), (2, 5), (3, 7), (4, 7)]) == [(2, 5), (4, 7)]
  {
  }

  // ------------------------------------------------------------ unchanging_ranges

  /** The time after which range `n` starts: one past the previous range's end, or 1. */
  function RangeStart<V>(ranges: seq<Key<V>>, n: nat): int
    requires n < |ranges|
  {
    if n != 0 then ranges[n - 1].0 + 1 else 1
  }

  /** The windows `unchanging_ranges` emits for one curve, given the run ends of its keys
      and, for each, the number of keys `get_keyframe_len` counts: a run of more than two
      keys whose time span leaves room yields `(start + 1, end - 1)`. */
  function Windows<V>(ranges: seq<Key<V>>, lens: seq<int>, n: nat): (w: seq<(int, int)>)
    requires |lens| == |ranges| && n <= |ranges|
    ensures forall k :: 0 <= k < |w| ==> w[k].0 <= w[k].1
    ensures |w| <= n
    decreases n
  {
    if n == 0 then []
    else
      var m := n - 1;
      var earlier := Windows(ranges, lens, m);
      var start := RangeStart(ranges, m);
      var end := ranges[m].0;
      if lens[m] <= 2 || end - start < 2 then earlier else earlier + [(start + 1, end - 1)]
  }

  function UnchangingRanges<V>(ranges: seq<Key<V>>, lens: seq<int>): (w: seq<(int, int)>)
    requires |lens| == |ranges|
    ensures forall k :: 0 <= k < |w| ==> w[k].0 <= w[k].1
  {
    Windows(ranges, lens, |ranges|)
  }

  /** Range `m`, one of the first `n`, is counted as longer than two keys, spans enough
      time, and yields window `w`. */
  predicate Emits<V>(ranges: seq<Key<V>>, lens: seq<int>, m: int, n: nat, w: (int, int))
    requires |lens| == |ranges| && n <= |ranges|
  {
    && 0 <= m < n && lens[m] > 2 && ranges[m].0 - RangeStart(ranges, m) >= 2
    && w == (RangeStart(ranges, m) + 1, ranges[m].0 - 1)
  }

  /** A window comes from a range counted as longer than two keys, and lies strictly
      between that range's start time and its end time. */
  lemma {:induction false} WindowsFrom<V>(ranges: seq<Key<V>>, lens: seq<int>, n: nat, w: (int, int))
    requires |lens| == |ranges| && n <= |ranges|
    ensures w in Windows(ranges, lens, n) <==> exists m :: Emits(ranges, lens, m, n, w)
  {
    if n > 0 {
      WindowsFrom(ranges, lens, n - 1, w);
      if w in Windows(ranges, lens, n) {
        if w in Windows(ranges, lens, n - 1) {
          var m :| Emits(ranges, lens, m, n - 1, w);
          assert Emits(ranges, lens, m, n, w);
        } else {
          assert Emits(ranges, lens, n - 1, n, w);
        }
      }
      if exists m :: Emits(ranges, lens, m, n, w) {
        var m :| Emits(ranges, lens, m, n, w);
        if m < n - 1 {
          assert Emits(ranges, lens, m, n - 1, w);
        }
      }
    }
  }

  /** A range of at most two keys contributes nothing. */
  lemma ShortRangesSkipped<V>(ranges: seq<Key<V>>, lens: seq<int>)
    requires |lens| == |ranges|
    requires forall m :: 0 <= m < |lens| ==> lens[m] <= 2
    ensures UnchangingRanges(ranges, lens) == []
  {
    var w := UnchangingRanges(ranges, lens);
    if w != [] {
      WindowsFrom(ranges, lens, |ranges|, w[0]);
    }
  }

  /** Every window ends before time `t`. */
  predicate EndsBefore(w: seq<(int, int)>, t: int) {
    forall k :: 0 <= k < |w| ==> w[k].1 < t
  }

  predicate InOrder(w: seq<(int, int)>) {
    forall k :: 0 <= k < |w| - 1 ==> w[k].1 < w[k + 1].0
  }

  /** When range times increase, the windows are disjoint and in time order, and none
      reaches the end time of the last range considered. */
  lemma {:induction false} WindowsOrdered<V>(ranges: seq<Key<V>>, lens: seq<int>, n: nat)
    requires |lens| == |ranges| && 0 < n <= |ranges|
    requires forall k :: 0 <= k < |ranges| - 1 ==> ranges[k].0 < ranges[k + 1].0
    ensures InOrder(Windows(ranges, lens, n))
    ensures EndsBefore(Windows(ranges, lens, n), ranges[n - 1].0)
  {
    var m := n - 1;
    var earlier := Windows(ranges, lens, m);
    if m > 0 {
      WindowsOrdered(ranges, lens, m);
      assert ranges[m - 1].0 < ranges[m].0;
    }
  }
}
