/** Python's `str.split(sep)` for a one-character separator, and the pieces of it the
    name helpers use: the last field (`split(sep)[-1]`) and the second field of
    `rsplit(sep, 2)`. */
module Fields {
  import opened Results

  /** The occurrences of `c` in `s`. */
  function Count(s: string, c: char): nat {
    if s == [] then 0 else (if s[0] == c then 1 else 0) + Count(s[1..], c)
  }

  /** `sep.join(fs)`. */
  function Join(fs: seq<string>, sep: char): string
    decreases |fs|
  {
    if fs == [] then [] else if |fs| == 1 then fs[0] else fs[0] + [sep] + Join(fs[1..], sep)
  }

  /** `s.split(sep)`: the maximal runs between separators, empty runs included. */
  function Split(s: string, sep: char): (fs: seq<string>)
    ensures |fs| == Count(s, sep) + 1
    ensures forall k :: 0 <= k < |fs| ==> sep !in fs[k]
  {
    if s == [] then [[]]
    else
      var rest := Split(s[1..], sep);
      if s[0] == sep then [[]] + rest
      else
        var fs := [[s[0]] + rest[0]] + rest[1..];
        assert fs[1..] == rest[1..];
        fs
  }

  /** Joining the fields gives the string back. */
  lemma {:induction false} JoinSplit(s: string, sep: char)
    ensures Join(Split(s, sep), sep) == s
  {
    if s != [] {
      JoinSplit(s[1..], sep);
      var rest := Split(s[1..], sep);
      assert s == [s[0]] + s[1..];
      if s[0] != sep {
        var fs := Split(s, sep);
        assert fs[1..] == rest[1..];
      }
    }
  }

  /** Splitting the join of separator-free fields gives the fields back. */
  lemma {:induction false} SplitJoin(fs: seq<string>, sep: char)
    requires |fs| >= 1
    requires forall k :: 0 <= k < |fs| ==> sep !in fs[k]
    ensures Split(Join(fs, sep), sep) == fs
    decreases |fs|
  {
    SplitSingle(fs[0], sep);
    if |fs| > 1 {
      SplitJoin(fs[1..], sep);
      assert Join(fs, sep) == fs[0] + [sep] + Join(fs[1..], sep);
      SplitAppend(fs[0], Join(fs[1..], sep), sep);
      assert [fs[0]] + fs[1..] == fs;
    }
  }

  /** A string without a separator is a single field. */
  lemma {:induction false} SplitSingle(x: string, sep: char)
    requires sep !in x
    ensures Split(x, sep) == [x]
  {
    if x != [] {
      SplitSingle(x[1..], sep);
      assert [x[0]] + x[1..] == x;
    }
  }

  /** `s.split(sep)[-1]`: everything after the last separator. */
  function LastField(s: string, sep: char): (f: string)
    ensures sep !in f
    ensures |f| <= |s| && s[|s| - |f|..] == f
    ensures |f| < |s| ==> s[|s| - |f| - 1] == sep
  {
    var fs := Split(s, sep);
    JoinSplit(s, sep);
    LastFieldSuffix(fs, sep);
    fs[|fs| - 1]
  }

  lemma {:induction false} LastFieldSuffix(fs: seq<string>, sep: char)
    requires |fs| >= 1
    ensures var j := Join(fs, sep); var f := fs[|fs| - 1];
      |f| <= |j| && j[|j| - |f|..] == f && (|f| < |j| ==> j[|j| - |f| - 1] == sep)
    decreases |fs|
  {
    if |fs| > 1 {
      LastFieldSuffix(fs[1..], sep);
      var j := Join(fs, sep);
      var t := Join(fs[1..], sep);
      assert j == fs[0] + [sep] + t;
      assert j[|j| - |t|..] == t;
    }
  }

  /** `s.rsplit(sep, 2)[1]`: with one separator the part after it, with two or more the
      part between the last two; with none the list has one element and indexing it
      raises `IndexError`. */
  function RSplitSecond(s: string, sep: char): (r: Result<string>)
    ensures r.Err? <==> sep !in s
    ensures r.Err? ==> r.error == IndexError
    ensures r.Ok? ==> sep !in r.value
  {
    var fs := Split(s, sep);
    if |fs| == 1 then
      CountZero(s, sep);
      Err(IndexError)
    else
      CountPositive(s, sep);
      if |fs| == 2 then Ok(fs[1]) else Ok(fs[|fs| - 2])
  }

  /** Splitting at a separator splits the two sides independently. */
  lemma {:induction false} SplitAppend(a: string, b: string, sep: char)
    ensures Split(a + [sep] + b, sep) == Split(a, sep) + Split(b, sep)
  {
    var whole := a + [sep] + b;
    if a == [] {
      assert whole == [sep] + b;
      assert whole[1..] == b;
    } else {
      SplitAppend(a[1..], b, sep);
      assert whole[1..] == a[1..] + [sep] + b;
      SplitAppendStep(a, b, sep);
    }
  }

  lemma SplitAppendStep(a: string, b: string, sep: char)
    requires a != []
    requires Split(a[1..] + [sep] + b, sep) == Split(a[1..], sep) + Split(b, sep)
    ensures Split(a + [sep] + b, sep) == Split(a, sep) + Split(b, sep)
  {
    var whole := a + [sep] + b;
    assert whole[1..] == a[1..] + [sep] + b;
    assert whole[0] == a[0];
    ConsPieces(a[0], Split(a[1..], sep), Split(b, sep), sep);
  }

  lemma ConsPieces(c: char, front: seq<string>, back: seq<string>, sep: char)
    requires front != []
    ensures c == sep ==> [[]] + (front + back) == ([[]] + front) + back
    ensures c != sep ==> [[c] + (front + back)[0]] + (front + back)[1..] == ([[c] + front[0]] + front[1..]) + back
  {
    if c != sep {
      assert (front + back)[1..] == front[1..] + back;
    }
  }

  /** A name `pre_m_l` whose last two fields carry no separator yields `m`, whatever
      `pre` holds. */
  lemma RSplitSecondOf(pre: string, m: string, l: string, sep: char)
    requires sep !in m && sep !in l
    ensures RSplitSecond(pre + [sep] + m + [sep] + l, sep) == Ok(m)
  {
    var tail := m + [sep] + l;
    SplitAppend(m, l, sep);
    SplitSingle(m, sep);
    SplitSingle(l, sep);
    assert Split(tail, sep) == [m, l];
    SplitAppend(pre, tail, sep);
    assert pre + [sep] + m + [sep] + l == pre + [sep] + tail;
    var fs := Split(pre, sep) + [m, l];
    assert |fs| >= 3 && fs[|fs| - 2] == m;
  }

  lemma {:induction false} CountZero(s: string, sep: char)
    ensures Count(s, sep) == 0 <==> sep !in s
  {
    if s != [] {
      CountZero(s[1..], sep);
      assert s == [s[0]] + s[1..];
    }
  }

  lemma CountPositive(s: string, sep: char)
    ensures Count(s, sep) > 0 <==> sep in s
  {
    CountZero(s, sep);
  }
}
