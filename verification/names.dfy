/** Node and file names: Python 2's ASCII `str.title`, mahelper.py's `prefix_name`, and
    pyhelper.py's `get_padded_names`. */
module Names {
  import opened Results
  import opened Text
  import Fields

  // ------------------------------------------------------------ str.title

  predicate IsUpper(c: char) { 'A' <= c <= 'Z' }

  predicate IsLower(c: char) { 'a' <= c <= 'z' }

  /** A letter: the only characters `str.title` changes or counts as part of a word. */
  predicate IsCased(c: char) { IsUpper(c) || IsLower(c) }

  function ToUpper(c: char): char {
    if IsLower(c) then (c as int - 32) as char else c
  }

  function ToLower(c: char): char {
    if IsUpper(c) then (c as int + 32) as char else c
  }

  /** `str.title` on the rest of a string, after a character that was a letter
      (`afterCased`) or not: a letter that starts a word is upper-cased, a letter that
      continues one is lower-cased, and everything else is copied. */
  function TitleFrom(s: string, afterCased: bool): (t: string)
    ensures |t| == |s|
  {
    if s == [] then []
    else
      var c := s[0];
      var out := if !IsCased(c) then c else if afterCased then ToLower(c) else ToUpper(c);
      [out] + TitleFrom(s[1..], IsCased(c))
  }

  /** `s.title()`. */
  function Title(s: string): (t: string)
    ensures |t| == |s|
  {
    TitleFrom(s, false)
  }

  /** Position `i` starts a word: it is first, or follows a non-letter. */
  predicate StartsWord(s: string, i: int)
    requires 0 <= i < |s|
  {
    i == 0 || !IsCased(s[i - 1])
  }

  /** What `title` puts at position `i`, read off the input alone. */
  function TitleAt(s: string, i: int): char
    requires 0 <= i < |s|
  {
    TitleAfter(s, i, StartsWord(s, i))
  }

  /** The character at `i` once title-cased, given whether a word starts there. */
  function TitleAfter(s: string, i: int, starts: bool): char
    requires 0 <= i < |s|
  {
    if !IsCased(s[i]) then s[i] else if starts then ToUpper(s[i]) else ToLower(s[i])
  }

  lemma {:induction false} TitleFromAt(s: string, afterCased: bool)
    ensures forall i :: 0 <= i < |s| ==>
      TitleFrom(s, afterCased)[i] == TitleAfter(s, i, if i == 0 then !afterCased else StartsWord(s, i))
  {
    if s != [] {
      TitleFromAt(s[1..], IsCased(s[0]));
      var t := TitleFrom(s, afterCased);
      var rest := TitleFrom(s[1..], IsCased(s[0]));
      assert t == [t[0]] + rest;
      forall i | 1 <= i < |s|
        ensures t[i] == TitleAfter(s, i, StartsWord(s, i))
      {
        assert t[i] == rest[i - 1];
        assert s[1..][i - 1] == s[i];
        if i > 1 {
          assert s[1..][i - 2] == s[i - 1];
          assert StartsWord(s[1..], i - 1) == StartsWord(s, i);
        }
      }
    }
  }

  /** Each character of the title depends only on itself and its left neighbour. */
  lemma TitleSpec(s: string)
    ensures forall i :: 0 <= i < |s| ==> Title(s)[i] == TitleAt(s, i)
  {
    TitleFromAt(s, false);
  }

  /** `title` changes case and nothing else. */
  lemma TitleCaseOnly(s: string)
    ensures forall i :: 0 <= i < |s| ==> ToLower(Title(s)[i]) == ToLower(s[i])
    ensures forall i :: 0 <= i < |s| ==> IsCased(Title(s)[i]) == IsCased(s[i])
  {
    TitleSpec(s);
  }

  /** Applying `title` twice is applying it once. */
  lemma TitleIdempotent(s: string)
    ensures Title(Title(s)) == Title(s)
  {
    var t := Title(s);
    TitleSpec(s);
    TitleSpec(t);
    TitleCaseOnly(s);
    forall i | 0 <= i < |s|
      ensures Title(t)[i] == t[i]
    {
      assert StartsWord(t, i) == StartsWord(s, i);
    }
  }

  /** Words are runs of letters: an inner capital is lowered (`l_armJnt` becomes
      `L_Armjnt`), and a letter after a digit or an underscore starts a new word (`arm2b`
      becomes `Arm2B`). */
  lemma TitleWordBoundaries(s: string, i: int)
    requires 0 < i < |s|
    ensures IsCased(s[i - 1]) && IsUpper(s[i]) ==> Title(s)[i] == ToLower(s[i]) != s[i]
    ensures !IsCased(s[i - 1]) && IsLower(s[i]) ==> Title(s)[i] == ToUpper(s[i]) != s[i]
  {
    TitleSpec(s);
  }

  // ------------------------------------------------------------ prefix_name

  /** `prefix_name(name, prefix)`: the prefix goes in front of the title-cased name, after
      the namespace if there is one. Unpacking `name.split(":")` into two names raises
      `ValueError` for a name with two or more colons. */
  function PrefixName(name: string, prefix: string): (r: Result<string>)
    ensures r.Err? <==> Fields.Count(name, ':') >= 2
    ensures r.Err? ==> r.error == ValueError
    ensures r.Ok? ==> |r.value| == |prefix| + |name|
  {
    if ':' in name then
      var parts := Fields.Split(name, ':');
      Fields.CountPositive(name, ':');
      if |parts| != 2 then Err(ValueError)
      else
        Fields.JoinSplit(name, ':');
        assert name == parts[0] + [':'] + parts[1];
        Ok(parts[0] + ":" + prefix + Title(parts[1]))
    else
      Fields.CountZero(name, ':');
      Ok(prefix + Title(name))
  }

  /** Both shapes of name: without a namespace the prefix leads, with one the namespace
      is kept verbatim and the prefix follows its colon. */
  lemma PrefixNameShapes(ns: string, rest: string, prefix: string)
    requires ':' !in ns && ':' !in rest
    ensures PrefixName(rest, prefix) == Ok(prefix + Title(rest))
    ensures PrefixName(ns + ":" + rest, prefix) == Ok(ns + ":" + prefix + Title(rest))
  {
    var name := ns + ":" + rest;
    assert name == ns + [':'] + rest;
    Fields.SplitAppend(ns, rest, ':');
    Fields.SplitJoin([ns], ':');
    Fields.SplitJoin([rest], ':');
    assert ':' in name by {
      assert name[|ns|] == ':';
    }
  }

  /** Read back without case, a prefixed name is the namespace, the prefix and the old
      name: only the case of the old name changes. */
  lemma PrefixNameCaseOnly(ns: string, rest: string, prefix: string)
    requires ':' !in ns && ':' !in rest
    ensures PrefixName(ns + ":" + rest, prefix).Ok?
    ensures var r := PrefixName(ns + ":" + rest, prefix).value;
      var expected := ns + ":" + prefix + rest;
      |r| == |expected| &&
      forall i :: 0 <= i < |r| ==> ToLower(r[i]) == ToLower(expected[i])
  {
    PrefixNameShapes(ns, rest, prefix);
    TitleCaseOnly(rest);
  }

  // ------------------------------------------------------------ get_padded_names

  /** `"0" * (width - len(str(num))) + str(num)`: a negative repeat count gives no
      zeros, so a number wider than `width` is kept whole. */
  function PadNumber(num: nat, width: int): (p: string)
    ensures AllDigits(p) && DigitsValue(p) == num
    ensures |p| == if width > |NatToString(num)| then width else |NatToString(num)|
  {
    DigitsValueOfNatToString(num);
    LeadingZeros(width - |NatToString(num)|, NatToString(num));
    Repeat('0', width - |NatToString(num)|) + NatToString(num)
  }

  /** The width `get_padded_names` pads to: `padding`, or with `padding == 0` as many
      digits as `str(sequenceLen)` has. */
  function PadWidth(padding: int, sequenceLen: int): int {
    if padding == 0 then |IntToString(sequenceLen)| else padding
  }

  /** `get_padded_names(name, padding, sequenceLen)`: `name_0…`, `name_1…`, … for every
      number in `range(0, sequenceLen)`. */
  function GetPaddedNames(name: string, padding: int, sequenceLen: int): (r: seq<string>)
    ensures |r| == if sequenceLen > 0 then sequenceLen else 0
  {
    var width := PadWidth(padding, sequenceLen);
    seq(if sequenceLen > 0 then sequenceLen else 0, i requires 0 <= i => name + "_" + PadNumber(i, width))
  }

  /** The field after the last underscore of the `i`-th name is a run of digits whose
      value is `i`, whatever underscores the base name holds. */
  lemma PaddedNamesParse(name: string, padding: int, sequenceLen: int, i: int)
    requires 0 <= i < |GetPaddedNames(name, padding, sequenceLen)|
    ensures var f := Fields.LastField(GetPaddedNames(name, padding, sequenceLen)[i], '_');
      AllDigits(f) && DigitsValue(f) == i
    ensures GetPaddedNames(name, padding, sequenceLen)[i][..|name| + 1] == name + "_"
  {
    var p := PadNumber(i, PadWidth(padding, sequenceLen));
    var full := GetPaddedNames(name, padding, sequenceLen)[i];
    assert full == name + ['_'] + p;
    assert '_' !in p;
    Fields.SplitAppend(name, p, '_');
    Fields.SplitJoin([p], '_');
  }

  /** No two names are the same. */
  lemma PaddedNamesDistinct(name: string, padding: int, sequenceLen: int, i: int, j: int)
    requires 0 <= i < j < |GetPaddedNames(name, padding, sequenceLen)|
    ensures GetPaddedNames(name, padding, sequenceLen)[i] != GetPaddedNames(name, padding, sequenceLen)[j]
  {
    PaddedNamesParse(name, padding, sequenceLen, i);
    PaddedNamesParse(name, padding, sequenceLen, j);
  }

  /** With automatic padding every name has the same length, since no number below
      `sequenceLen` has more digits than `sequenceLen` itself. */
  lemma PaddedNamesUniform(name: string, sequenceLen: int, i: int)
    requires 0 <= i < |GetPaddedNames(name, 0, sequenceLen)|
    ensures |GetPaddedNames(name, 0, sequenceLen)[i]| == |name| + 1 + |NatToString(sequenceLen)|
  {
    var k := |NatToString(sequenceLen)|;
    NatToStringLength(sequenceLen, k);
    NatToStringLength(i, k);
  }

  /** An explicit padding narrower than a number does not cut it. */
  lemma PaddedNamesNotTruncated()
    ensures GetPaddedNames("img", 2, 101)[100] == "img_100"
    ensures GetPaddedNames("img", 4, 3)[2] == "img_0002"
    ensures GetPaddedNames("img", 0, 12)[3] == "img_03"
  {
  }
}
