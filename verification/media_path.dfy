/** Media ingestion: the path under which an uploaded cover is kept.
    The create and update handlers split the original file name on '.', keep the last
    piece as the extension and append it, after a '.', to the temporary upload path. */
module MediaPath {

  const Dot: char := '.'

  /** The file the upload middleware stored: the client's file name and the temporary path. */
  datatype UploadedFile = UploadedFile(originalName: string, path: string)

  /** `String.prototype.split` with a one-character separator: the pieces between the
      occurrences of `sep`, in order, always at least one of them (possibly empty). */
  function Split(s: string, sep: char): (parts: seq<string>)
    ensures |parts| >= 1
    ensures forall i :: 0 <= i < |parts| ==> sep !in parts[i]
    decreases |s|
  {
    if |s| == 0 then [""]
    else
      var rest := Split(s[1..], sep);
      if s[0] == sep then [""] + rest
      else [[s[0]] + rest[0]] + rest[1..]
  }

  /** `Array.prototype.join`: the pieces with `sep` between consecutive ones. */
  function Join(parts: seq<string>, sep: char): string
    requires |parts| >= 1
  {
    if |parts| == 1 then parts[0] else parts[0] + [sep] + Join(parts[1..], sep)
  }

  /** Joining the pieces of a split gives back the original string. */
  lemma {:induction false} JoinSplit(s: string, sep: char)
    ensures Join(Split(s, sep), sep) == s
    decreases |s|
  {
    if |s| > 0 {
      var rest := Split(s[1..], sep);
      JoinSplit(s[1..], sep);
      if s[0] == sep {
        assert Split(s, sep) == [""] + rest;
        assert Split(s, sep)[1..] == rest;
      } else {
        var parts := Split(s, sep);
        assert parts == [[s[0]] + rest[0]] + rest[1..];
        if |rest| == 1 {
          assert |parts| == 1;
        } else {
          assert parts[1..] == rest[1..];
          calc {
            Join(parts, sep);
            ([s[0]] + rest[0]) + [sep] + Join(rest[1..], sep);
            [s[0]] + (rest[0] + [sep] + Join(rest[1..], sep));
            [s[0]] + Join(rest, sep);
          }
        }
      }
    }
  }

  /** A separator-free string is a single piece. */
  lemma {:induction false} SplitWithoutSeparator(a: string, sep: char)
    requires sep !in a
    ensures Split(a, sep) == [a]
    decreases |a|
  {
    if |a| > 0 {
      SplitWithoutSeparator(a[1..], sep);
      assert [a[0]] + a[1..] == a;
    }
  }

  /** A separator-free prefix followed by the separator becomes the first piece. */
  lemma {:induction false} SplitAfterPiece(a: string, sep: char, b: string)
    requires sep !in a
    ensures Split(a + [sep] + b, sep) == [a] + Split(b, sep)
    decreases |a|
  {
    var s := a + [sep] + b;
    if |a| == 0 {
      assert s[1..] == b;
    } else {
      assert s[1..] == a[1..] + [sep] + b;
      SplitAfterPiece(a[1..], sep, b);
      assert [a[0]] + a[1..] == a;
    }
  }

  /** Splitting a join of separator-free pieces gives back the pieces. */
  lemma {:induction false} SplitJoin(parts: seq<string>, sep: char)
    requires |parts| >= 1
    requires forall i :: 0 <= i < |parts| ==> sep !in parts[i]
    ensures Split(Join(parts, sep), sep) == parts
    decreases |parts|
  {
    if |parts| == 1 {
      SplitWithoutSeparator(parts[0], sep);
    } else {
      SplitJoin(parts[1..], sep);
      SplitAfterPiece(parts[0], sep, Join(parts[1..], sep));
      assert [parts[0]] + parts[1..] == parts;
    }
  }

  /** Joining peels off the last piece behind the last separator. */
  lemma {:induction false} JoinLast(parts: seq<string>, sep: char)
    requires |parts| >= 2
    ensures Join(parts, sep) == Join(parts[..|parts| - 1], sep) + [sep] + parts[|parts| - 1]
    decreases |parts|
  {
    var n := |parts|;
    if n > 2 {
      JoinLast(parts[1..], sep);
      assert parts[1..][..n - 2] == parts[..n - 1][1..];
      assert parts[..n - 1][0] == parts[0];
    } else {
      assert parts[..1] == [parts[0]];
    }
  }

  /** `parts[parts.length - 1]` of `originalname.split('.')`. */
  function Extension(name: string): (e: string)
    ensures Dot !in e
  {
    var parts := Split(name, Dot);
    parts[|parts| - 1]
  }

  /** The extension is exactly the text after the last '.' of the name: a suffix of the
      name without '.', preceded by a '.' unless it is the whole name. */
  lemma ExtensionIsTextAfterLastDot(name: string)
    ensures Dot !in Extension(name)
    ensures |Extension(name)| <= |name|
    ensures name[|name| - |Extension(name)|..] == Extension(name)
    ensures |Extension(name)| == |name| || name[|name| - |Extension(name)| - 1] == Dot
  {
    var parts := Split(name, Dot);
    JoinSplit(name, Dot);
    if |parts| >= 2 {
      JoinLast(parts, Dot);
      var front := Join(parts[..|parts| - 1], Dot);
      assert name == front + [Dot] + Extension(name);
      assert name[|name| - |Extension(name)|..] == Extension(name);
    }
  }

  /** No other string satisfies that description: it determines the extension. */
  lemma ExtensionUnique(name: string, e: string)
    requires Dot !in e && |e| <= |name| && name[|name| - |e|..] == e
    requires |e| == |name| || name[|name| - |e| - 1] == Dot
    ensures e == Extension(name)
  {
    ExtensionIsTextAfterLastDot(name);
  }

  /** A name without any '.' is its own extension. */
  lemma NoDotKeepsWholeName(name: string)
    requires Dot !in name
    ensures Extension(name) == name
  {
    ExtensionIsTextAfterLastDot(name);
  }

  /** A name ending in '.' has the empty extension, so its cover path ends in '.'. */
  lemma TrailingDotGivesEmptyExtension(tmp: string, name: string)
    requires |name| > 0 && name[|name| - 1] == Dot
    ensures Extension(name) == ""
    ensures CoverPath(tmp, name) == tmp + [Dot]
    ensures CoverPath(tmp, name)[|CoverPath(tmp, name)| - 1] == Dot
  {
    ExtensionIsTextAfterLastDot(name);
  }

  /** `path + '.' + ext`: the cover path the handlers rename the upload to. It is never
      the empty string, so the update handler's `if (newPath)` holds exactly when a file
      arrived; it keeps the temporary path as a prefix and ends in the extension. */
  function CoverPath(tmp: string, name: string): (p: string)
    ensures p != ""
    ensures |p| == |tmp| + 1 + |Extension(name)|
    ensures p[..|tmp|] == tmp && p[|tmp|] == Dot && p[|tmp| + 1..] == Extension(name)
    ensures Dot !in p[|tmp| + 1..]
  {
    tmp + [Dot] + Extension(name)
  }
}
