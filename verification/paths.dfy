/** pyhelper.py's `basename_plus`: a file path taken apart into directory, name,
    extension and the name without its trailing frame number, using the POSIX rules of
    `os.path.split` and `os.path.splitext`. */
module Paths {
  import opened Results
  import opened Text
  import Fields

  /** `s.rfind(c)`: the index of the last `c`, or -1 when there is none. */
  function RFind(s: string, c: char): (i: int)
    ensures -1 <= i < |s|
    ensures i >= 0 ==> s[i] == c
    ensures forall j :: i < j < |s| ==> s[j] != c
  {
    if s == [] then -1 else if s[|s| - 1] == c then |s| - 1 else RFind(s[..|s| - 1], c)
  }

  /** `s.rstrip(chars)`, the characters to strip given as a test. */
  function RStrip(s: string, strip: char -> bool): (t: string)
    ensures |t| <= |s| && t == s[..|t|]
    ensures |t| > 0 ==> !strip(t[|t| - 1])
    ensures forall j :: |t| <= j < |s| ==> strip(s[j])
  {
    if s == [] || !strip(s[|s| - 1]) then s else RStrip(s[..|s| - 1], strip)
  }

  predicate IsSlash(c: char) { c == '/' }

  predicate AllSlashes(s: string) {
    forall j :: 0 <= j < |s| ==> s[j] == '/'
  }

  /** `os.path.split(p)`: the head up to the last slash, with its trailing slashes
      removed unless it consists of nothing else, and the tail after that slash. */
  function PathSplit(p: string): (r: (string, string))
    ensures '/' !in r.1 && |r.1| <= |p| && p[|p| - |r.1|..] == r.1
    ensures |r.0| + |r.1| <= |p| && p[..|r.0|] == r.0
    ensures forall j :: |r.0| <= j < |p| - |r.1| ==> p[j] == '/'
    ensures r.0 == [] <==> '/' !in p
    ensures r.0 != [] && !AllSlashes(r.0) ==> r.0[|r.0| - 1] != '/'
    ensures r.0 != [] && AllSlashes(r.0) ==> |r.0| + |r.1| == |p|
  {
    var i := RFind(p, '/') + 1;
    var head := p[..i];
    var tail := p[i..];
    assert '/' in p ==> p[RFind(p, '/')] == '/' && head != [];
    if head != [] && !AllSlashes(head) then (RStrip(head, IsSlash), tail) else (head, tail)
  }

  /** Some character of `p[lo..hi]` is not a dot. */
  predicate HasNonDot(p: string, lo: int, hi: int)
    requires 0 <= lo <= hi <= |p|
  {
    exists k :: lo <= k < hi && p[k] != '.'
  }

  /** `os.path.splitext(p)`: the extension runs from the last dot of the last path
      component, provided something other than dots comes before that dot in the
      component; otherwise there is none. */
  function SplitExt(p: string): (r: (string, string))
    ensures r.0 + r.1 == p
    ensures r.1 != [] ==> r.1[0] == '.' && '.' !in r.1[1..] && '/' !in r.1
  {
    var sepIndex := RFind(p, '/');
    var dotIndex := RFind(p, '.');
    if dotIndex > sepIndex && HasNonDot(p, sepIndex + 1, dotIndex) then
      assert p[..dotIndex] + p[dotIndex..] == p;
      assert forall j :: 1 <= j < |p| - dotIndex ==> p[dotIndex..][j] == p[dotIndex + j];
      (p[..dotIndex], p[dotIndex..])
    else (p, [])
  }

  /** Some dot of the name has a character other than a dot before it: the test that
      decides whether `splitext` finds an extension. */
  predicate Dotted(name: string) {
    exists j, i :: 0 <= j < i < |name| && name[j] != '.' && name[i] == '.'
  }

  /** `splitext` finds an extension exactly when the last path component is dotted; by
      `SplitExt`'s contract the extension is then the suffix from the path's last dot. */
  lemma SplitExtDotted(p: string)
    ensures SplitExt(p).1 != [] <==> Dotted(Fields.LastField(p, '/'))
  {
    LastSlash(p);
    if Dotted(Fields.LastField(p, '/')) {
      DottedHasExt(p);
    }
    if SplitExt(p).1 != [] {
      ExtIsDotted(p);
    }
  }

  /** The last slash of a path stands just before its last component. */
  lemma LastSlash(p: string)
    ensures RFind(p, '/') == |p| - |Fields.LastField(p, '/')| - 1
  {
    var c := Fields.LastField(p, '/');
    var off := |p| - |c|;
    assert forall k :: off <= k < |p| ==> p[k] == c[k - off];
  }

  /** The test `splitext` applies, as the positions of the last slash and dot. */
  lemma ExtCondition(p: string)
    ensures SplitExt(p).1 != [] <==>
      RFind(p, '.') > RFind(p, '/') && HasNonDot(p, RFind(p, '/') + 1, RFind(p, '.'))
  {
  }

  lemma DottedHasExt(p: string)
    requires Dotted(Fields.LastField(p, '/'))
    ensures SplitExt(p).1 != []
  {
    LastSlash(p);
    ExtCondition(p);
    DottedSuffix(p, Fields.LastField(p, '/'), RFind(p, '.'));
  }

  /** A dotted suffix puts the path's last dot inside it, after a non-dot. */
  lemma DottedSuffix(p: string, c: string, d: int)
    requires |c| <= |p| && p[|p| - |c|..] == c && Dotted(c)
    requires -1 <= d < |p| && forall k :: d < k < |p| ==> p[k] != '.'
    ensures |p| - |c| <= d && HasNonDot(p, |p| - |c|, d)
  {
    var off := |p| - |c|;
    var j, i :| 0 <= j < i < |c| && c[j] != '.' && c[i] == '.';
    assert p[off + i] == c[i];
    assert p[off + j] == c[j];
  }

  lemma ExtIsDotted(p: string)
    requires SplitExt(p).1 != []
    ensures Dotted(Fields.LastField(p, '/'))
  {
    LastSlash(p);
    ExtCondition(p);
    SuffixDotted(p, Fields.LastField(p, '/'), RFind(p, '.'));
  }

  /** A dot inside the suffix with a non-dot before it makes the suffix dotted. */
  lemma SuffixDotted(p: string, c: string, d: int)
    requires |c| <= |p| && p[|p| - |c|..] == c
    requires |p| - |c| <= d < |p| && p[d] == '.' && HasNonDot(p, |p| - |c|, d)
    ensures Dotted(c)
  {
    var off := |p| - |c|;
    var k :| off <= k < d && p[k] != '.';
    assert 0 <= k - off < d - off < |c|;
    assert c[k - off] == p[k] && c[d - off] == p[d];
  }

  /** A file name, having no slash, is its own last component: its extension is found
      exactly when it is dotted. */
  lemma FileNameExt(name: string)
    requires '/' !in name
    ensures SplitExt(name).1 != [] <==> Dotted(name)
  {
    var f := Fields.LastField(name, '/');
    assert f == name;
    SplitExtDotted(name);
  }

  /** The four values `basename_plus` returns. */
  datatype NameParts = NameParts(noExt: string, noDigits: Option<string>, dir: string, ext: string)

  /** `basename_plus(filepath)`: the name without extension; that name with its trailing
      digits stripped, or `None` when there were none; the directory; the extension. */
  function BasenamePlus(filepath: string): (r: NameParts)
    ensures r.dir == PathSplit(filepath).0
    ensures r.noExt + r.ext == PathSplit(filepath).1
    ensures r.ext != [] ==> r.ext[0] == '.' && '.' !in r.ext[1..]
    ensures r.ext != [] <==> Dotted(PathSplit(filepath).1)
  {
    var (basedir, filename) := PathSplit(filepath);
    var (noExt, ext) := SplitExt(filename);
    FileNameExt(filename);
    var stripped := RStrip(noExt, IsDigit);
    NameParts(noExt, if stripped != noExt then Some(stripped) else None, basedir, ext)
  }

  // ------------------------------------------------------------ properties

  /** The tail `split` returns is the last `/`-separated field of the path. */
  lemma PathSplitTail(p: string)
    ensures PathSplit(p).1 == Fields.LastField(p, '/')
  {
    var t := PathSplit(p).1;
    var f := Fields.LastField(p, '/');
    assert |t| == |f|;
  }

  /** The path is its directory, a run of slashes, and its file name: nothing is lost. */
  lemma PathSplitRejoins(p: string)
    ensures p == PathSplit(p).0 + Text.Repeat('/', |p| - |PathSplit(p).0| - |PathSplit(p).1|) + PathSplit(p).1
  {
    var head := PathSplit(p).0;
    var tail := PathSplit(p).1;
    var a, b := |head|, |p| - |tail|;
    ThreeParts(p, a, b);
    AllSlashesRepeat(p[a..b]);
  }

  lemma ThreeParts(p: string, a: int, b: int)
    requires 0 <= a <= b <= |p|
    ensures p == p[..a] + p[a..b] + p[b..]
  {
  }

  lemma AllSlashesRepeat(s: string)
    requires AllSlashes(s)
    ensures s == Text.Repeat('/', |s|)
  {
  }

  /** A name made only of leading dots and a dot-free rest has no extension: `.bashrc`
      is a name, not an extension. */
  lemma HiddenFileNoExt(dots: nat, rest: string)
    requires '.' !in rest && '/' !in rest
    ensures SplitExt(Text.Repeat('.', dots) + rest) == (Text.Repeat('.', dots) + rest, [])
  {
    var p := Text.Repeat('.', dots) + rest;
    var dotIndex := RFind(p, '.');
    if dotIndex >= 0 {
      assert dotIndex < dots;
      assert !HasNonDot(p, RFind(p, '/') + 1, dotIndex);
    }
  }

  /** The digit-stripped name is the name minus a non-empty run of trailing digits, and
      it is `None` exactly when the name does not end in a digit. */
  lemma NoDigitsParts(filepath: string)
    ensures var r := BasenamePlus(filepath);
      (r.noDigits.None? <==> r.noExt == [] || !IsDigit(r.noExt[|r.noExt| - 1])) &&
      (r.noDigits.Some? ==>
        var n := r.noDigits.value;
        |n| < |r.noExt| && r.noExt[..|n|] == n && AllDigits(r.noExt[|n|..]) &&
        (n == [] || !IsDigit(n[|n| - 1])))
  {
    var r := BasenamePlus(filepath);
    var stripped := RStrip(r.noExt, IsDigit);
    assert r.noDigits == if stripped != r.noExt then Some(stripped) else None;
    StripDigits(r.noExt);
  }

  lemma StripDigits(name: string)
    ensures var n := RStrip(name, IsDigit);
      (n == name <==> name == [] || !IsDigit(name[|name| - 1])) &&
      (n != name ==> |n| < |name| && name[..|n|] == n && AllDigits(name[|n|..])) &&
      (n == [] || !IsDigit(n[|n| - 1]))
  {
    var n := RStrip(name, IsDigit);
    if n != name {
      assert forall j :: 0 <= j < |name| - |n| ==> name[|n|..][j] == name[|n| + j];
    }
  }

  /** An image-sequence frame: the frame number is split off the name and the
      directory loses its trailing slash. */
  lemma SequenceFrame(dir: string, stem: string, frame: string, ext: string)
    requires dir != [] && !AllSlashes(dir) && dir[|dir| - 1] != '/'
    requires stem != [] && '/' !in stem && '.' !in stem && !IsDigit(stem[|stem| - 1])
    requires frame != [] && AllDigits(frame)
    requires '/' !in ext && '.' !in ext
    ensures BasenamePlus(dir + "/" + stem + frame + "." + ext) ==
      NameParts(stem + frame, Some(stem), dir, "." + ext)
  {
    var name := stem + frame + "." + ext;
    assert dir + "/" + stem + frame + "." + ext == dir + ['/'] + name;
    SplitAfterDir(dir, name);
    SplitExtOfFrame(stem, frame, ext);
    StripFrame(stem, frame);
  }

  lemma SplitAfterDir(dir: string, name: string)
    requires dir != [] && !AllSlashes(dir) && dir[|dir| - 1] != '/'
    requires '/' !in name
    ensures PathSplit(dir + ['/'] + name) == (dir, name)
  {
    var p := dir + ['/'] + name;
    assert p[|dir|] == '/';
    assert RFind(p, '/') == |dir|;
    assert p[..|dir| + 1] == dir + ['/'] && p[|dir| + 1..] == name;
    var head := dir + ['/'];
    assert !AllSlashes(head) by {
      var j :| 0 <= j < |dir| && dir[j] != '/';
      assert head[j] == dir[j];
    }
    assert head[..|dir|] == dir;
  }

  /** A head of nothing but slashes is kept whole, while the slashes ending any other
      head are dropped: `"//x"` splits into `("//", "x")` and `"a//x"` into `("a", "x")`. */
  lemma SlashHeads()
    ensures PathSplit("//x") == ("//", "x")
    ensures PathSplit("a//x") == ("a", "x")
  {
    assert RFind("//x", '/') == 1;
    assert "//x"[..2] == "//" && "//x"[2..] == "x";
    assert AllSlashes("//");
    assert RFind("a//x", '/') == 2;
    assert "a//x"[..3] == "a//" && "a//x"[3..] == "x";
    assert "a//"[0] != '/';
    assert "a//"[..2] == "a/" && "a/"[..1] == "a";
    assert RStrip("a//", IsSlash) == "a";
  }

  lemma SplitExtOfFrame(stem: string, frame: string, ext: string)
    requires stem != [] && '/' !in stem && '.' !in stem
    requires AllDigits(frame)
    requires '/' !in ext && '.' !in ext
    ensures SplitExt(stem + frame + "." + ext) == (stem + frame, "." + ext)
  {
    var name := stem + frame + "." + ext;
    var dotIndex := |stem| + |frame|;
    assert name[dotIndex] == '.';
    assert RFind(name, '.') == dotIndex;
    assert RFind(name, '/') == -1;
    assert name[0] == stem[0];
    assert HasNonDot(name, 0, dotIndex);
    assert name[..dotIndex] == stem + frame && name[dotIndex..] == "." + ext;
  }

  lemma StripFrame(stem: string, frame: string)
    requires stem != [] && !IsDigit(stem[|stem| - 1])
    requires frame != [] && AllDigits(frame)
    ensures RStrip(stem + frame, IsDigit) == stem
  {
    var noExt := stem + frame;
    assert noExt[|stem| - 1] == stem[|stem| - 1];
    assert forall j :: |stem| <= j < |noExt| ==> noExt[j] == frame[j - |stem|];
    assert noExt[..|stem|] == stem;
  }
}
