/** A model of the three POSIX path helpers the splitter relies on
    (`os.path.join` with two arguments, `os.path.basename` and
    `os.path.splitext`), over strings with '/' as the only separator. */
module PosixPath {

  const Sep: char := '/'
  const ExtSep: char := '.'

  /** The index of the last occurrence of `c` in `s`, or -1 when there is none
      (Python's `str.rfind` on a one-character needle). */
  function RFind(s: string, c: char): (k: int)
    ensures -1 <= k < |s|
    ensures k >= 0 ==> s[k] == c
    ensures forall j :: k < j < |s| ==> s[j] != c
  {
    if |s| == 0 then -1
    else if s[|s| - 1] == c then |s| - 1
    else RFind(s[..|s| - 1], c)
  }

  /** The three facts RFind ensures determine its result. */
  lemma RFindUnique(s: string, c: char, k: int)
    requires -1 <= k < |s|
    requires k >= 0 ==> s[k] == c
    requires forall j :: k < j < |s| ==> s[j] != c
    ensures RFind(s, c) == k
  {
  }

  /** Searching a concatenation finds the last occurrence in the right part
      if there is one, and otherwise the last occurrence in the left part. */
  lemma RFindConcat(x: string, y: string, c: char)
    ensures RFind(x + y, c) == if c in y then |x| + RFind(y, c) else RFind(x, c)
  {
    var s := x + y;
    if c in y {
      var k := RFind(y, c);
      if k < 0 {
        assert false;
      }
      assert s[|x| + k] == y[k];
      forall j | |x| + k < j < |s| ensures s[j] != c {
        assert s[j] == y[j - |x|];
      }
      RFindUnique(s, c, |x| + k);
    } else {
      var k := RFind(x, c);
      forall j | k < j < |s| ensures s[j] != c {
        if j >= |x| {
          assert s[j] == y[j - |x|];
        }
      }
      RFindUnique(s, c, k);
    }
  }

  /** True when `p` is an absolute path. */
  predicate IsAbsolute(p: string) {
    |p| > 0 && p[0] == Sep
  }

  /** `os.path.join(a, b)`: an absolute `b` replaces `a`; otherwise `b` is
      appended, with a separator unless `a` is empty or already ends in one. */
  function Join(a: string, b: string): string {
    if IsAbsolute(b) then b
    else if |a| == 0 || a[|a| - 1] == Sep then a + b
    else a + [Sep] + b
  }

  /** What Join puts in front of a relative second argument. */
  function DirPrefix(a: string): (d: string)
    ensures d == [] || d[|d| - 1] == Sep
  {
    if |a| == 0 || a[|a| - 1] == Sep then a else a + [Sep]
  }

  /** Joining a relative path yields a fixed directory prefix followed by it,
      so the joined path ends in `b` and the prefix depends only on `a`. */
  lemma JoinRelative(a: string, b: string)
    requires !IsAbsolute(b)
    ensures Join(a, b) == DirPrefix(a) + b
  {
  }

  /** Under one directory, different relative names give different paths. */
  lemma JoinInjective(a: string, b1: string, b2: string)
    requires !IsAbsolute(b1) && !IsAbsolute(b2)
    requires Join(a, b1) == Join(a, b2)
    ensures b1 == b2
  {
    JoinRelative(a, b1);
    JoinRelative(a, b2);
    var d := DirPrefix(a);
    assert b1 == (d + b1)[|d|..];
    assert b2 == (d + b2)[|d|..];
  }

  /** `os.path.basename(p)`: everything after the last separator. */
  function Basename(p: string): (r: string)
    ensures Sep !in r
    ensures |r| <= |p| && p[|p| - |r|..] == r
    ensures |r| == |p| || p[|p| - |r| - 1] == Sep
  {
    var k := RFind(p, Sep);
    p[k + 1..]
  }

  /** The basename of `dir` joined with a name that has no separator is that
      name. */
  lemma BasenameOfJoin(a: string, b: string)
    requires Sep !in b
    ensures Basename(Join(a, b)) == b
  {
    assert !IsAbsolute(b);
    JoinRelative(a, b);
    var d := DirPrefix(a);
    RFindConcat(d, b, Sep);
    assert RFind(d, Sep) == |d| - 1;
    assert RFind(d + b, Sep) == |d| - 1;
    assert (d + b)[|d|..] == b;
  }

  /** True when every character of `s` is an extension separator. */
  predicate AllExtSeps(s: string) {
    forall i :: 0 <= i < |s| ==> s[i] == ExtSep
  }

  /** The final component of `p` holds a dot that some non-dot character
      precedes: the case in which `os.path.splitext` finds an extension. */
  ghost predicate HasExtension(p: string) {
    exists a, b :: 0 <= a < b < |p| && p[a] != ExtSep && p[b] == ExtSep && Sep !in p[a..]
  }

  /** When the last dot follows the last separator and a non-dot character
      lies between them, the final component has an extension. */
  lemma SplitConditionSufficient(p: string, sepIndex: int, dotIndex: int)
    requires sepIndex == RFind(p, Sep) && dotIndex == RFind(p, ExtSep)
    requires dotIndex > sepIndex && !AllExtSeps(p[sepIndex + 1..dotIndex])
    ensures HasExtension(p)
  {
    var slice := p[sepIndex + 1..dotIndex];
    var i :| 0 <= i < |slice| && slice[i] != ExtSep;
    var a := sepIndex + 1 + i;
    assert p[a] == slice[i];
    forall j | 0 <= j < |p[a..]| ensures p[a..][j] != Sep {
      assert p[a..][j] == p[a + j];
    }
    assert 0 <= a < dotIndex < |p| && p[a] != ExtSep && p[dotIndex] == ExtSep && Sep !in p[a..];
  }

  /** When the final component has an extension, the last dot follows the
      last separator with a non-dot character between them. */
  lemma SplitConditionNecessary(p: string, sepIndex: int, dotIndex: int)
    requires sepIndex == RFind(p, Sep) && dotIndex == RFind(p, ExtSep)
    requires HasExtension(p)
    ensures dotIndex > sepIndex && !AllExtSeps(p[sepIndex + 1..dotIndex])
  {
    var a, b :| 0 <= a < b < |p| && p[a] != ExtSep && p[b] == ExtSep && Sep !in p[a..];
    forall j | a <= j < |p| ensures p[j] != Sep {
      assert p[a..][j - a] == p[j];
    }
    NonDotBeforeLastDot(p, sepIndex, dotIndex, a, b);
  }

  /** A non-dot character at `a`, with no separator from `a` on and a dot
      further right, lies strictly between the last separator and the last
      dot. */
  lemma NonDotBeforeLastDot(p: string, sepIndex: int, dotIndex: int, a: int, b: int)
    requires -1 <= sepIndex < |p| && (sepIndex >= 0 ==> p[sepIndex] == Sep)
    requires -1 <= dotIndex < |p| && forall j :: dotIndex < j < |p| ==> p[j] != ExtSep
    requires 0 <= a < b < |p| && p[a] != ExtSep && p[b] == ExtSep
    requires forall j :: a <= j < |p| ==> p[j] != Sep
    ensures dotIndex > sepIndex && !AllExtSeps(p[sepIndex + 1..dotIndex])
  {
    assert b <= dotIndex;
    assert sepIndex < a;
    var slice := p[sepIndex + 1..dotIndex];
    assert slice[a - sepIndex - 1] == p[a];
  }

  /** The test `os.path.splitext` makes on the last separator and the last
      dot holds exactly when the final component has an extension. */
  lemma SplitCondition(p: string, sepIndex: int, dotIndex: int)
    requires sepIndex == RFind(p, Sep) && dotIndex == RFind(p, ExtSep)
    ensures (dotIndex > sepIndex && !AllExtSeps(p[sepIndex + 1..dotIndex])) <==> HasExtension(p)
  {
    if dotIndex > sepIndex && !AllExtSeps(p[sepIndex + 1..dotIndex]) {
      SplitConditionSufficient(p, sepIndex, dotIndex);
    }
    if HasExtension(p) {
      SplitConditionNecessary(p, sepIndex, dotIndex);
    }
  }

  /** Where `os.path.splitext` splits `p`: the last dot, when the final
      component has an extension (a leading-dot name such as ".profile" has
      none); -1 when there is no split. */
  function ExtIndex(p: string): (k: int)
    ensures -1 <= k < |p|
    ensures k >= 0 <==> HasExtension(p)
    ensures k >= 0 ==> p[k] == ExtSep
    ensures k >= 0 ==> forall j :: k < j < |p| ==> p[j] != Sep && p[j] != ExtSep
  {
    var sepIndex := RFind(p, Sep);
    var dotIndex := RFind(p, ExtSep);
    SplitCondition(p, sepIndex, dotIndex);
    if dotIndex > sepIndex && !AllExtSeps(p[sepIndex + 1..dotIndex]) then dotIndex else -1
  }

  /** `os.path.splitext(p)`: the path cut at ExtIndex into root and
      extension. */
  function SplitExt(p: string): (r: (string, string))
    ensures r.0 + r.1 == p
    ensures r.1 != [] <==> HasExtension(p)
    ensures r.1 == [] || (r.1[0] == ExtSep && Sep !in r.1 && ExtSep !in r.1[1..])
  {
    var k := ExtIndex(p);
    if k >= 0 then
      ExtensionAfterIndex(p, k);
      (p[..k], p[k..])
    else
      (p, [])
  }

  /** The text from ExtIndex on is a dot followed by text with neither a dot
      nor a separator. */
  lemma ExtensionAfterIndex(p: string, k: int)
    requires 0 <= k < |p| && p[k] == ExtSep
    requires forall j :: k < j < |p| ==> p[j] != Sep && p[j] != ExtSep
    ensures p[k..][0] == ExtSep && Sep !in p[k..]
    ensures ExtSep !in p[k..][1..]
  {
    var ext := p[k..];
    forall i | 0 <= i < |ext| ensures ext[i] != Sep {
      assert ext[i] == p[k + i];
    }
    forall i | 0 <= i < |ext[1..]| ensures ext[1..][i] != ExtSep {
      assert ext[1..][i] == p[k + 1 + i];
    }
  }

  /** A dot after a non-dot character starts an extension even when the name
      begins with dots: `..a.b` splits into `..a` and `.b`. */
  lemma SplitExtAfterLeadingDots()
    ensures SplitExt("..a.b") == ("..a", ".b")
  {
    var p := "..a.b";
    RFindUnique(p, Sep, -1);
    RFindUnique(p, ExtSep, 3);
    assert p[0..3][2] == 'a';
    assert ExtIndex(p) == 3;
    assert p[..3] == "..a" && p[3..] == ".b";
  }

  /** A name that starts with its only dot has no extension: `d/.profile`
      stays whole. */
  lemma SplitExtHiddenFile()
    ensures SplitExt("d/.profile") == ("d/.profile", "")
  {
    var q := "d/.profile";
    RFindUnique(q, Sep, 1);
    RFindUnique(q, ExtSep, 2);
    SplitConditionNecessaryFails(q, 1, 2);
  }

  /** A last dot that immediately follows the last separator leaves no room
      for a non-dot character before it, so there is no extension. */
  lemma SplitConditionNecessaryFails(p: string, sepIndex: int, dotIndex: int)
    requires sepIndex == RFind(p, Sep) && dotIndex == RFind(p, ExtSep)
    requires dotIndex == sepIndex + 1
    ensures !HasExtension(p)
  {
    if HasExtension(p) {
      SplitConditionNecessary(p, sepIndex, dotIndex);
    }
  }

  /** The path without its extension (`os.path.splitext(p)[0]`). */
  function StripExt(p: string): (r: string)
    ensures |r| <= |p| && p[..|r|] == r
    ensures |r| < |p| <==> HasExtension(p)
  {
    SplitExt(p).0
  }

  /** Join's directory prefix ends in its last separator, if it has one. */
  lemma DirPrefixLastSep(a: string)
    ensures RFind(DirPrefix(a), Sep) == |DirPrefix(a)| - 1
  {
  }

  /** SplitExt splits at a dot that is the last dot of the path, lies after
      the last separator, and is not reached through leading dots only. */
  lemma SplitExtAt(p: string, sepIndex: int, dotIndex: int)
    requires RFind(p, Sep) == sepIndex && RFind(p, ExtSep) == dotIndex
    requires sepIndex + 1 < dotIndex && p[sepIndex + 1] != ExtSep
    ensures ExtIndex(p) == dotIndex
    ensures SplitExt(p) == (p[..dotIndex], p[dotIndex..])
  {
    assert p[sepIndex + 1..dotIndex][0] == p[sepIndex + 1];
    assert !AllExtSeps(p[sepIndex + 1..dotIndex]);
  }

  /** Splitting `dir/stem.ext` gives back `dir/stem` and `.ext` when the stem
      is a separator-free, dot-free, non-empty name and the extension is a
      dot followed by separator-free, dot-free text. */
  lemma SplitExtOfJoin(a: string, stem: string, ext: string)
    requires |stem| > 0 && Sep !in stem && ExtSep !in stem
    requires |ext| > 0 && ext[0] == ExtSep && Sep !in ext && ExtSep !in ext[1..]
    ensures SplitExt(Join(a, stem + ext)) == (Join(a, stem), ext)
  {
    var d := DirPrefix(a);
    assert !IsAbsolute(stem + ext) && !IsAbsolute(stem);
    JoinRelative(a, stem + ext);
    JoinRelative(a, stem);
    var p := d + (stem + ext);
    assert Join(a, stem + ext) == p;

    assert Sep !in stem + ext;
    RFindConcat(d, stem + ext, Sep);
    DirPrefixLastSep(a);
    var sepIndex := |d| - 1;
    assert RFind(p, Sep) == sepIndex;

    forall j | 0 < j < |ext| ensures ext[j] != ExtSep {
      assert ext[j] == ext[1..][j - 1];
    }
    RFindUnique(ext, ExtSep, 0);
    assert p == (d + stem) + ext;
    RFindConcat(d + stem, ext, ExtSep);
    var dotIndex := |d| + |stem|;
    assert RFind(p, ExtSep) == dotIndex;

    assert p[sepIndex + 1] == stem[0];
    SplitExtAt(p, sepIndex, dotIndex);
    assert p[..dotIndex] == d + stem;
    assert p[dotIndex..] == ext;
  }
}
