/** `os.path.splitext` as Python's posixpath module defines it. */
module PosixPath {

  /** `s.rfind(c)`: the index of the last `c` in `s`, or -1. */
  function RFind(s: string, c: char): (r: int)
    ensures -1 <= r < |s|
  {
    if s == [] then -1
    else if s[|s| - 1] == c then |s| - 1
    else RFind(s[..|s| - 1], c)
  }

  /**
   * The extension starts at the last '.' after the last '/', but only if
   * some character of the base name before that dot is not a dot: leading
   * dots do not start an extension (".json" has none, "..a" has none).
   */
  predicate HasExtension(p: string) {
    var sep, dot := RFind(p, '/'), RFind(p, '.');
    sep < dot && exists j :: sep < j < dot && p[j] != '.'
  }

  /** `os.path.splitext(p)`: (root, ext). */
  function SplitExt(p: string): (string, string) {
    if HasExtension(p) then
      var dot := RFind(p, '.');
      (p[..dot], p[dot..])
    else
      (p, [])
  }

  /**
   * Root and extension put back together give the path; the extension is
   * empty or one dot followed by neither dot nor slash; it is empty exactly
   * when the base name has no dot past its leading dots.
   */
  lemma SplitExtParts(p: string)
    ensures SplitExt(p).0 + SplitExt(p).1 == p
    ensures var ext := SplitExt(p).1; ext == [] || (ext[0] == '.' && '.' !in ext[1..] && '/' !in ext)
    ensures SplitExt(p).1 != [] <==> HasExtension(p)
  {
    if HasExtension(p) {
      var dot := RFind(p, '.');
      RFindLast(p, '.');
      RFindLast(p, '/');
      var ext := p[dot..];
      assert p[..dot] + ext == p;
      forall j | 0 <= j < |ext| ensures ext[j] != '/' && (0 < j ==> ext[j] != '.') {
        assert ext[j] == p[dot + j];
      }
      assert ext[0] == '.';
      assert forall j :: 0 <= j < |ext[1..]| ==> ext[1..][j] == ext[j + 1];
    }
  }

  /** `os.path.splitext(p)[0]`: the key a file name contributes to the encoding cache. */
  function Stem(p: string): string {
    SplitExt(p).0
  }

  /** `os.path.splitext(p)[1]` */
  function Ext(p: string): string {
    SplitExt(p).1
  }

  /** `RFind` finds the last `c`: no `c` follows it. */
  lemma {:induction false} RFindLast(s: string, c: char)
    ensures 0 <= RFind(s, c) ==> s[RFind(s, c)] == c
    ensures forall j :: RFind(s, c) < j < |s| ==> s[j] != c
  {
    if s != [] && s[|s| - 1] != c {
      RFindLast(s[..|s| - 1], c);
    }
  }

  /** `RFind` is determined by that property. */
  lemma {:induction false} RFindIs(s: string, c: char, r: int)
    requires -1 <= r < |s|
    requires 0 <= r ==> s[r] == c
    requires forall j :: r < j < |s| ==> s[j] != c
    ensures RFind(s, c) == r
  {
    if s != [] && s[|s| - 1] != c {
      RFindIs(s[..|s| - 1], c, r);
    }
  }

  /** The extension starts at the last dot. */
  lemma SplitExtSimple()
    ensures SplitExt("alice.jpg") == ("alice", ".jpg")
  {
    RFindIs("alice.jpg", '/', -1);
    RFindIs("alice.jpg", '.', 5);
    assert "alice.jpg"[0] != '.';
    assert "alice.jpg"[..5] == "alice" && "alice.jpg"[5..] == ".jpg";
  }

  /** Only the last dot starts the extension. */
  lemma SplitExtLastDotWins()
    ensures SplitExt("a.b.png") == ("a.b", ".png")
  {
    RFindIs("a.b.png", '/', -1);
    RFindIs("a.b.png", '.', 3);
    assert "a.b.png"[0] != '.';
    assert "a.b.png"[..3] == "a.b" && "a.b.png"[3..] == ".png";
  }

  /** A leading dot does not start an extension. */
  lemma SplitExtHiddenFile()
    ensures SplitExt(".json") == (".json", "")
  {
    RFindIs(".json", '/', -1);
    RFindIs(".json", '.', 0);
  }

  /** Nor does a dot that only other dots precede. */
  lemma SplitExtOnlyLeadingDots()
    ensures SplitExt("..jpg") == ("..jpg", "")
  {
    RFindIs("..jpg", '/', -1);
    RFindIs("..jpg", '.', 1);
    assert "..jpg"[0] == '.';
  }

  /** A hidden file can still have an extension. */
  lemma SplitExtHiddenWithExtension()
    ensures SplitExt(".a.gif") == (".a", ".gif")
  {
    RFindIs(".a.gif", '/', -1);
    RFindIs(".a.gif", '.', 2);
    assert ".a.gif"[1] != '.';
    assert ".a.gif"[..2] == ".a" && ".a.gif"[2..] == ".gif";
  }

  /** No dot, no extension. */
  lemma SplitExtNoDot()
    ensures SplitExt("README") == ("README", "")
  {
    RFindIs("README", '.', -1);
  }
}
