/** Where downloadFile stores a download: the last `/`-separated segment of
    the resolved URL, inside the output directory. */
module UrlPath {
  import opened Counting

  /** strings.Join with a one-character separator. */
  function Join(parts: seq<string>, sep: char): string
    requires |parts| >= 1
  {
    if |parts| == 1 then parts[0] else parts[0] + [sep] + Join(parts[1..], sep)
  }

  /** strings.Split with a one-character separator: one more part than there
      are separators, no part holds the separator, and joining the parts
      gives back the input. */
  function Split(s: string, sep: char): (parts: seq<string>)
    ensures |parts| == Count(sep, s) + 1
    ensures forall k :: 0 <= k < |parts| ==> sep !in parts[k]
    ensures Join(parts, sep) == s
    decreases |s|
  {
    if s == [] then [[]]
    else
      var rest := Split(s[1..], sep);
      if s[0] == sep then
        assert ([[]] + rest)[1..] == rest;
        [[]] + rest
      else
        var parts := [[s[0]] + rest[0]] + rest[1..];
        assert parts[1..] == rest[1..];
        assert |rest| > 1 ==> Join(rest, sep) == rest[0] + [sep] + Join(rest[1..], sep);
        assert s == [s[0]] + s[1..];
        parts
  }

  /** name is what follows the last sep of s: a suffix of s holding no sep,
      which is the whole of s or comes right after a sep. */
  predicate IsLastSegment(name: string, s: string, sep: char) {
    |name| <= |s| && s[|s| - |name|..] == name && sep !in name
    && (|name| < |s| ==> s[|s| - |name| - 1] == sep)
  }

  lemma {:induction false} JoinLongerThanLast(parts: seq<string>, sep: char)
    requires |parts| > 1
    ensures |Join(parts, sep)| > |parts[|parts| - 1]|
  {
    if |parts| > 2 {
      JoinLongerThanLast(parts[1..], sep);
    }
  }

  /** A last segment of s[1..] stays one of s, unless it is all of s[1..]
      and s[0] is not the separator. */
  lemma LastSegmentOfTail(name: string, s: string, sep: char)
    requires s != [] && IsLastSegment(name, s[1..], sep)
    requires |name| == |s| - 1 ==> s[0] == sep
    ensures IsLastSegment(name, s, sep)
  {
    assert s[1..][|s| - 1 - |name|..] == s[|s| - |name|..];
    if |name| < |s| - 1 {
      assert s[1..][|s| - 1 - |name| - 1] == s[|s| - |name| - 1];
    }
  }

  function Last(parts: seq<string>): string
    requires |parts| >= 1
  {
    parts[|parts| - 1]
  }

  /** One step of Split: a leading character that is not the separator
      joins the first part; otherwise it starts a new, empty first part.
      Either way the last part is unchanged unless there is only one. */
  lemma SplitStep(s: string, sep: char)
    requires s != []
    ensures var rest := Split(s[1..], sep);
      if s[0] != sep && |rest| == 1 then Split(s, sep) == [s]
      else Last(Split(s, sep)) == Last(rest)
  {
    var rest := Split(s[1..], sep);
    if s[0] != sep && |rest| == 1 {
      assert rest[0] == s[1..];
      assert s == [s[0]] + s[1..];
    }
  }

  lemma {:induction false} SplitLastSegment(s: string, sep: char)
    ensures IsLastSegment(Last(Split(s, sep)), s, sep)
  {
    if s != [] {
      var rest := Split(s[1..], sep);
      SplitLastSegment(s[1..], sep);
      SplitStep(s, sep);
      if s[0] == sep {
        LastSegmentOfTail(Last(rest), s, sep);
      } else if |rest| > 1 {
        JoinLongerThanLast(rest, sep);
        LastSegmentOfTail(Last(rest), s, sep);
      }
    }
  }

  /** At most one suffix of s is its last segment. */
  lemma LastSegmentUnique(x: string, y: string, s: string, sep: char)
    requires IsLastSegment(x, s, sep) && IsLastSegment(y, s, sep)
    ensures x == y
  {
  }

  /** The file name of a download: the last element of strings.Split(uri, "/"). */
  function FileName(uri: string): (name: string)
    ensures IsLastSegment(name, uri, '/')
    ensures '/' !in uri ==> name == uri
  {
    SplitLastSegment(uri, '/');
    Last(Split(uri, '/'))
  }

  /** The path a download is written to: the output directory, a '/', and
      then the file name, which holds no '/'; so the file name is the path's
      own last segment. */
  function FilePath(outPath: string, uri: string): (p: string)
    ensures |p| > |outPath| && p[..|outPath| + 1] == outPath + "/"
    ensures p[|outPath| + 1..] == FileName(uri)
    ensures IsLastSegment(FileName(uri), p, '/')
  {
    var name := FileName(uri);
    var p := outPath + "/" + name;
    assert p[|p| - |name|..] == name;
    assert p[|p| - |name| - 1] == '/';
    p
  }

  /** The last segment of the stored path is the file name again: the file
      lands directly inside outPath, whatever the URL. */
  lemma FilePathRoundTrip(outPath: string, uri: string)
    ensures var p := FilePath(outPath, uri);
      p[..|outPath| + 1] == outPath + "/" && FileName(p) == FileName(uri)
  {
    var p := FilePath(outPath, uri);
    LastSegmentUnique(FileName(p), FileName(uri), p, '/');
  }

  /** Whatever comes before the last '/', the name after it is the file name. */
  lemma FileNameAfterSlash(prefix: string, name: string)
    requires '/' !in name
    ensures FileName(prefix + "/" + name) == name
  {
    var uri := prefix + "/" + name;
    assert uri[|uri| - |name|..] == name;
    assert uri[|uri| - |name| - 1] == '/';
    LastSegmentUnique(FileName(uri), name, uri, '/');
  }

  /** A URL that ends in '/' gives an empty file name, so the path is the
      output directory followed by '/'. */
  lemma TrailingSlash(outPath: string, uri: string)
    requires uri != [] && uri[|uri| - 1] == '/'
    ensures FileName(uri) == ""
    ensures FilePath(outPath, uri) == outPath + "/"
  {
  }
}
