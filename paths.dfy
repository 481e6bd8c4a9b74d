/** POSIX path helpers the trainers use: `os.path.join`, `os.path.relpath`
    for a file below the data directory, and `os.path.splitext`. */
module Paths {
  import opened Strings

  /** The position of the last `c` in `s`, or -1. */
  function LastIndexOf(s: string, c: char): (r: int)
    ensures -1 <= r < |s|
    ensures r >= 0 ==> s[r] == c
    ensures forall j :: r < j < |s| ==> s[j] != c
  {
    LastIndexBelow(s, c, |s|)
  }

  /** The position of the last `c` in `s[..n]`, or -1. */
  function LastIndexBelow(s: string, c: char, n: nat): (r: int)
    requires n <= |s|
    ensures -1 <= r < n
    ensures r >= 0 ==> s[r] == c
    ensures forall j :: r < j < n ==> s[j] != c
  {
    if n == 0 then -1
    else if s[n - 1] == c then n - 1
    else LastIndexBelow(s, c, n - 1)
  }

  /** Whether `s` has a character other than '.'. */
  predicate HasNonDot(s: string) {
    exists i | 0 <= i < |s| :: s[i] != '.'
  }

  /** The last path component. */
  function Basename(p: string): (r: string)
    ensures forall i :: 0 <= i < |r| ==> r[i] != '/'
  {
    var k := LastIndexOf(p, '/') + 1;
    var r := p[k..];
    assert forall i :: 0 <= i < |r| ==> r[i] == p[k + i];
    r
  }

  /** `os.path.splitext`: the extension runs from the last '.' of the last
      component to the end, provided something other than dots comes before
      that '.' in the component; otherwise there is no extension. */
  function SplitExt(p: string): (r: (string, string))
    ensures r.0 + r.1 == p
    ensures r.1 != [] ==> r.1[0] == '.'
    ensures forall j :: 0 <= j < |r.1| ==> r.1[j] != '/'
    ensures forall j :: 1 <= j < |r.1| ==> r.1[j] != '.'
  {
    var dot := ExtensionStart(p);
    if dot < 0 then (p, "")
    else
      ExtensionAt(p, dot);
      (p[..dot], p[dot..])
  }

  /** Where the extension of `p` starts, or -1 when it has none. */
  function ExtensionStart(p: string): (dot: int)
    ensures dot < 0 || (dot < |p| && p[dot] == '.')
    ensures dot >= 0 ==> forall j :: dot < j < |p| ==> p[j] != '.' && p[j] != '/'
  {
    var sep := LastIndexOf(p, '/');
    var dot := LastIndexOf(p, '.');
    if dot > sep && HasNonDot(p[sep + 1..dot]) then
      LastDotAfterSlash(p);
      dot
    else -1
  }

  /** When the last '.' comes after the last '/', neither occurs after it. */
  lemma LastDotAfterSlash(p: string)
    requires LastIndexOf(p, '.') > LastIndexOf(p, '/')
    ensures var dot := LastIndexOf(p, '.');
      dot < |p| && p[dot] == '.' && forall j :: dot < j < |p| ==> p[j] != '.' && p[j] != '/'
  {
  }

  /** The text from a '.' after the last '/' and the last '.' onwards is an
      extension: it starts with that '.' and holds no other '.' or '/'. */
  lemma ExtensionAt(p: string, dot: nat)
    requires dot < |p| && p[dot] == '.'
    requires forall j :: dot < j < |p| ==> p[j] != '.' && p[j] != '/'
    ensures p[..dot] + p[dot..] == p
    ensures forall j :: 0 <= j < |p[dot..]| ==> p[dot..][j] != '/'
    ensures forall j :: 1 <= j < |p[dot..]| ==> p[dot..][j] != '.'
  {
    var ext := p[dot..];
    assert forall j :: 0 <= j < |ext| ==> ext[j] == p[dot + j];
  }

  /** Appending text without `c` does not move the last `c`. */
  lemma LastIndexOfAppend(s: string, t: string, c: char)
    requires forall j :: 0 <= j < |t| ==> t[j] != c
    ensures LastIndexOf(s + t, c) == LastIndexOf(s, c)
  {
    var p := s + t;
    var r := LastIndexOf(s, c);
    assert forall j :: |s| <= j < |p| ==> p[j] == t[j - |s|];
    assert forall j :: 0 <= j < |s| ==> p[j] == s[j];
  }

  /** The last '.' of `stem + tail` is the first character of `tail`, when
      the rest of `tail` has none. */
  lemma LastDotOfExtension(stem: string, tail: string)
    requires tail != [] && tail[0] == '.'
    requires forall j :: 1 <= j < |tail| ==> tail[j] != '.'
    ensures LastIndexOf(stem + tail, '.') == |stem|
  {
    var p := stem + tail;
    assert p[|stem|] == '.';
    assert forall j :: |stem| < j < |p| ==> p[j] == tail[j - |stem|];
  }

  /** A name "stem.ext" whose extension has neither '.' nor '/' splits into
      the stem and ".ext", unless the stem's last component is nothing but
      dots. */
  lemma SplitExtOf(stem: string, ext: string)
    requires HasNonDot(Basename(stem))
    requires forall j :: 0 <= j < |ext| ==> ext[j] != '.' && ext[j] != '/'
    ensures SplitExt(stem + "." + ext) == (stem, "." + ext)
  {
    var tail := "." + ext;
    var p := stem + tail;
    assert stem + "." + ext == p;
    assert forall j :: 1 <= j < |tail| ==> tail[j] == ext[j - 1];
    LastDotOfExtension(stem, tail);
    LastIndexOfAppend(stem, tail, '/');
    var sep := LastIndexOf(stem, '/');
    assert p[sep + 1..|stem|] == Basename(stem);
    assert p[..|stem|] == stem && p[|stem|..] == tail;
  }

  /** A name ending in ".json" loses exactly that suffix, unless its last
      component is nothing but dots before it. */
  lemma SplitExtJson(stem: string)
    requires HasNonDot(Basename(stem))
    ensures SplitExt(stem + ".json") == (stem, ".json")
  {
    assert stem + "." + "json" == stem + ".json";
    assert forall j :: 0 <= j < |"json"| ==> "json"[j] != '.' && "json"[j] != '/';
    SplitExtOf(stem, "json");
  }

  /** A file called just ".json" has no extension at all. */
  lemma SplitExtDotJson()
    ensures SplitExt(".json") == (".json", "")
  {
    var p := ".json";
    assert LastIndexOf(p, '/') == -1 by {
      assert forall j :: 0 <= j < |p| ==> p[j] != '/';
    }
    assert LastIndexOf(p, '.') == 0 by {
      assert p[0] == '.' && forall j :: 0 < j < |p| ==> p[j] != '.';
    }
    assert !HasNonDot(p[0..0]);
    assert ExtensionStart(p) == -1;
  }

  /** `os.path.join(dir, name)` relative to the data directory: the name
      alone at the top, otherwise below the directory. */
  function JoinPath(dir: string, name: string): (r: string)
    ensures EndsWith(r, name)
  {
    if dir == [] then name
    else
      var r := dir + "/" + name;
      assert r[|r| - |name|..] == name;
      r
  }
}
