/** The path helpers of `fu` (Linux branch): `normalize` turns Windows
    separators into `/`, and `getFileName` keeps what follows the last
    separator. */
module FileUtils {
  import opened StringUtils

  /** `normalize(path)`: every backslash becomes a slash, nothing else
      changes. */
  function Normalize(path: string): (r: string)
    ensures |r| == |path|
    ensures forall i | 0 <= i < |path| :: r[i] == if path[i] == '\\' then '/' else path[i]
    ensures '\\' !in r
  {
    ReplaceChar(path, '\\', '/');
    ReplaceAll(path, "\\", "/")
  }

  /** A normalized path is left as it is. */
  lemma NormalizeIdempotent(path: string)
    ensures Normalize(Normalize(path)) == Normalize(path)
  {
    var n := Normalize(path);
    assert forall i | 0 <= i < |n| :: n[i] != '\\' by {
      forall i | 0 <= i < |n|
        ensures n[i] != '\\'
      {
        assert n[i] in n;
      }
    }
  }

  /** `getFileName(path)`: the last piece of the normalized path split at
      `/`, i.e. the text after the last separator of either kind, or the
      whole path when it has none. */
  function GetFileName(path: string): (r: string)
    ensures '/' !in r && '\\' !in r
    ensures |r| <= |path| && r == Normalize(path)[|path| - |r|..]
    ensures |r| < |path| ==> Normalize(path)[|path| - |r| - 1] == '/'
  {
    var n := Normalize(path);
    var v := Split(n, '/', false);
    var r := v[|v| - 1];
    JoinLast(v, '/');
    assert r in v;
    assert '\\' !in r by {
      forall i | 0 <= i < |r|
        ensures r[i] != '\\'
      {
        assert r[i] == n[|n| - |r| + i];
        assert n[|n| - |r| + i] in n;
      }
    }
    r
  }

  /** The last piece of a joined list sits at the end of the text, behind a
      delimiter unless it is the only piece. */
  lemma {:induction false} JoinLast(parts: seq<string>, d: char)
    requires |parts| >= 1
    ensures |parts[|parts| - 1]| <= |Join(parts, d)|
    ensures Join(parts, d)[|Join(parts, d)| - |parts[|parts| - 1]|..] == parts[|parts| - 1]
    ensures |parts| == 1 <==> Join(parts, d) == parts[|parts| - 1]
    ensures |parts| > 1 ==> Join(parts, d)[|Join(parts, d)| - |parts[|parts| - 1]| - 1] == d
    decreases |parts|
  {
    if |parts| > 1 {
      var tail := parts[1..];
      JoinLast(tail, d);
      var j := Join(tail, d);
      var x := parts[0] + [d];
      assert Join(parts, d) == x + j;
      assert tail[|tail| - 1] == parts[|parts| - 1];
      assert (x + j)[|x + j| - |parts[|parts| - 1]|..] == j[|j| - |parts[|parts| - 1]|..];
      if |tail| == 1 {
        assert (x + j)[|x|- 1] == d;
      } else {
        assert (x + j)[|x + j| - |parts[|parts| - 1]| - 1] == j[|j| - |parts[|parts| - 1]| - 1];
      }
      assert |x + j| > |j|;
    }
  }

  /** A name appended to a directory with either separator is what
      `getFileName` gives back. */
  lemma FileNameAfterSeparator(dir: string, sep: char, name: string)
    requires sep == '/' || sep == '\\'
    requires '/' !in name && '\\' !in name
    ensures GetFileName(dir + [sep] + name) == name
  {
    var path := dir + [sep] + name;
    var n := Normalize(path);
    var r := GetFileName(path);
    var at := |dir|;
    assert n[at] == '/' by {
      assert path[at] == sep;
    }
    assert forall i | at < i < |path| :: n[i] != '/' by {
      forall i | at < i < |path|
        ensures n[i] != '/'
      {
        assert path[i] == name[i - at - 1];
        assert name[i - at - 1] in name;
      }
    }
    assert n[at + 1..] == name by {
      forall i | 0 <= i < |name|
        ensures n[at + 1 + i] == name[i]
      {
        assert path[at + 1 + i] == name[i];
        assert name[i] in name;
      }
    }
  }
}
