/**
  Destination-path mirroring: the string functions behind `lakehouse_dest_path` and the
  parent split of `ensure_parent_dirs`. Python's `str.strip("/")`, `str.split("/")`,
  `"/".join(...)` and `str.replace("//", "/")` are written out over `seq<char>`.
*/
module Paths {

  /** True when every character of `s` is a slash (vacuously true of ""). */
  predicate AllSlashes(s: string) {
    forall k :: 0 <= k < |s| ==> s[k] == '/'
  }

  /**
    True when `s` never has two slashes next to each other. Adjacent positions are bound as
    two variables `j` and `k == j + 1` so that `s[j]` and `s[k]` can serve as triggers; an
    index expression `s[k + 1]` cannot.
  */
  ghost predicate NoDouble(s: string) {
    forall j, k :: 0 <= j < k < |s| && k == j + 1 ==> s[j] != '/' || s[k] != '/'
  }

  /** True when `s` never has three slashes next to each other (bound as in `NoDouble`). */
  ghost predicate NoTriple(s: string) {
    forall i, j, k :: 0 <= i < j < k < |s| && j == i + 1 && k == j + 1 ==>
      s[i] != '/' || s[j] != '/' || s[k] != '/'
  }

  /** A path segment with no slash at either end and no doubled slash inside. */
  ghost predicate Clean(s: string) {
    |s| > 0 && s[0] != '/' && s[|s| - 1] != '/' && NoDouble(s)
  }

  lemma NoDoubleSuffix(s: string, j: nat)
    requires NoDouble(s) && j <= |s|
    ensures NoDouble(s[j..])
  {
    forall k | 0 <= k < |s[j..]| - 1
      ensures s[j..][k] != '/' || s[j..][k + 1] != '/'
    {
      assert s[j..][k] == s[j + k] && s[j..][k + 1] == s[j + k + 1];
    }
  }

  lemma NoTripleSuffix(s: string, j: nat)
    requires NoTriple(s) && j <= |s|
    ensures NoTriple(s[j..])
  {
    forall k | 0 <= k < |s[j..]| - 2
      ensures s[j..][k] != '/' || s[j..][k + 1] != '/' || s[j..][k + 2] != '/'
    {
      assert s[j..][k] == s[j + k] && s[j..][k + 1] == s[j + k + 1] && s[j..][k + 2] == s[j + k + 2];
    }
  }

  /** The characters of `s` other than '/', in their original order. */
  function NonSlash(s: string): string
  {
    if |s| == 0 then ""
    else (if s[0] == '/' then "" else [s[0]]) + NonSlash(s[1..])
  }

  lemma {:induction false} NonSlashAppend(a: string, b: string)
    ensures NonSlash(a + b) == NonSlash(a) + NonSlash(b)
    decreases |a|
  {
    if |a| == 0 {
      assert a + b == b;
    } else {
      assert (a + b)[1..] == a[1..] + b;
      NonSlashAppend(a[1..], b);
    }
  }

  lemma NonSlashOfSlashes(s: string)
    requires AllSlashes(s)
    ensures NonSlash(s) == ""
    decreases |s|
  {
    if |s| > 0 {
      NonSlashOfSlashes(s[1..]);
    }
  }

  // ---------------------------------------------------------------------------
  // str.strip("/")
  // ---------------------------------------------------------------------------

  /** `s.lstrip("/")`: drops every leading slash. */
  function StripLeading(s: string): (r: string)
    ensures |r| <= |s| && r == s[|s| - |r|..]
    ensures |r| == 0 || r[0] != '/'
    decreases |s|
  {
    if |s| > 0 && s[0] == '/' then StripLeading(s[1..]) else s
  }

  /** What `lstrip` drops is made of slashes only. */
  lemma {:induction false} StripLeadingDropsSlashes(s: string)
    ensures AllSlashes(s[..|s| - |StripLeading(s)|])
    decreases |s|
  {
    if |s| > 0 && s[0] == '/' {
      StripLeadingDropsSlashes(s[1..]);
      var n := |s| - |StripLeading(s)|;
      forall k | 0 <= k < n
        ensures s[..n][k] == '/'
      {
        if k > 0 {
          assert s[..n][k] == s[1..][..n - 1][k - 1];
        }
      }
    }
  }

  /** `s.rstrip("/")`: drops every trailing slash. */
  function StripTrailing(s: string): (r: string)
    ensures |r| <= |s| && r == s[..|r|]
    ensures |r| == 0 || r[|r| - 1] != '/'
    decreases |s|
  {
    if |s| > 0 && s[|s| - 1] == '/' then StripTrailing(s[..|s| - 1]) else s
  }

  /** What `rstrip` drops is made of slashes only. */
  lemma {:induction false} StripTrailingDropsSlashes(s: string)
    ensures AllSlashes(s[|StripTrailing(s)|..])
    decreases |s|
  {
    if |s| > 0 && s[|s| - 1] == '/' {
      var u := s[..|s| - 1];
      StripTrailingDropsSlashes(u);
      var n := |StripTrailing(s)|;
      forall k | 0 <= k < |s| - n
        ensures s[n..][k] == '/'
      {
        if n + k < |s| - 1 {
          assert s[n..][k] == u[n..][k];
        }
      }
    }
  }

  /** `s.strip("/")`: the result neither starts nor ends with a slash. */
  function Strip(s: string): (r: string)
    ensures |r| <= |s|
    ensures |r| == 0 || (r[0] != '/' && r[|r| - 1] != '/')
  {
    StripTrailing(StripLeading(s))
  }

  /**
    What `strip` cuts off: the result is the piece of `s` starting at the returned offset,
    and everything in front of and behind it is a slash.
  */
  lemma StripCutsOnlySlashes(s: string) returns (i: nat)
    ensures i + |Strip(s)| <= |s| && Strip(s) == s[i..i + |Strip(s)|]
    ensures AllSlashes(s[..i]) && AllSlashes(s[i + |Strip(s)|..])
  {
    var t := StripLeading(s);
    var r := StripTrailing(t);
    StripLeadingDropsSlashes(s);
    StripTrailingDropsSlashes(t);
    i := |s| - |t|;
    assert t == s[i..];
    assert r == t[..|r|];
    assert r == s[i..i + |r|];
    assert s[i + |r|..] == t[|r|..];
  }

  /** Stripping removes slashes only: every other character survives, in order. */
  lemma StripKeepsNonSlash(s: string)
    ensures NonSlash(Strip(s)) == NonSlash(s)
  {
    var r := Strip(s);
    var i := StripCutsOnlySlashes(s);
    var j := i + |r|;
    assert s[..j] == s[..i] + s[i..j];
    assert s == s[..j] + s[j..];
    NonSlashBetweenSlashes(s[..i], r, s[j..]);
  }

  lemma NonSlashBetweenSlashes(front: string, middle: string, back: string)
    requires AllSlashes(front) && AllSlashes(back)
    ensures NonSlash(front + middle + back) == NonSlash(middle)
  {
    NonSlashAppend(front + middle, back);
    NonSlashAppend(front, middle);
    NonSlashOfSlashes(front);
    NonSlashOfSlashes(back);
  }

  /** A second strip changes nothing. */
  lemma StripIdempotent(s: string)
    ensures Strip(Strip(s)) == Strip(s)
  {
    var r := Strip(s);
    assert StripLeading(r) == r;
    assert StripTrailing(r) == r;
  }

  /** The stripped text is empty exactly when `s` consists of slashes only. */
  lemma StripEmptyIffAllSlashes(s: string)
    ensures Strip(s) == "" <==> AllSlashes(s)
  {
    var r := Strip(s);
    var i := StripCutsOnlySlashes(s);
    if r == "" {
      forall k | 0 <= k < |s|
        ensures s[k] == '/'
      {
        if k < i {
          assert s[..i][k] == s[k];
        } else {
          assert s[i..][k - i] == s[k];
        }
      }
    }
  }

  // ---------------------------------------------------------------------------
  // str.replace("//", "/")
  // ---------------------------------------------------------------------------

  /**
    `s.replace("//", "/")`: one left-to-right pass over non-overlapping occurrences of
    "//", each replaced by a single slash. It is not a collapse of slash runs.
  */
  function ReplaceDoubleSlash(s: string): (r: string)
    ensures |r| <= |s|
    ensures |r| == 0 <==> |s| == 0
    decreases |s|
  {
    if |s| < 2 then s
    else if s[0] == '/' && s[1] == '/' then "/" + ReplaceDoubleSlash(s[2..])
    else [s[0]] + ReplaceDoubleSlash(s[1..])
  }

  /** The pass leaves a string without "//" untouched. */
  lemma {:induction false} ReplaceKeepsNoDouble(s: string)
    requires NoDouble(s)
    ensures ReplaceDoubleSlash(s) == s
    decreases |s|
  {
    if |s| >= 2 {
      assert s[0] != '/' || s[1] != '/';
      NoDoubleSuffix(s, 1);
      ReplaceKeepsNoDouble(s[1..]);
    }
  }

  /** The pass shortens every string that contains "//". */
  lemma {:induction false} ReplaceShortensDouble(s: string)
    requires !NoDouble(s)
    ensures |ReplaceDoubleSlash(s)| < |s|
    decreases |s|
  {
    var k :| 0 <= k < |s| - 1 && s[k] == '/' && s[k + 1] == '/';
    if !(s[0] == '/' && s[1] == '/') {
      var t := s[1..];
      assert t[k - 1] == '/' && t[k] == '/';
      ReplaceShortensDouble(t);
    }
  }

  /** The pass removes slashes only: every other character survives, in order. */
  lemma {:induction false} ReplaceKeepsNonSlash(s: string)
    ensures NonSlash(ReplaceDoubleSlash(s)) == NonSlash(s)
    decreases |s|
  {
    if |s| >= 2 {
      if s[0] == '/' && s[1] == '/' {
        ReplaceKeepsNonSlash(s[2..]);
        NonSlashAppend("/", ReplaceDoubleSlash(s[2..]));
        assert s == "//" + s[2..];
        NonSlashAppend("//", s[2..]);
      } else {
        ReplaceKeepsNonSlash(s[1..]);
        NonSlashAppend([s[0]], ReplaceDoubleSlash(s[1..]));
      }
    }
  }

  /** The pass keeps the first character. */
  lemma ReplaceKeepsFirst(s: string)
    requires |s| > 0
    ensures ReplaceDoubleSlash(s)[0] == s[0]
  {
  }

  /** The pass keeps a final slash. */
  lemma {:induction false} ReplaceKeepsFinalSlash(s: string)
    requires |s| > 0 && s[|s| - 1] == '/'
    ensures ReplaceDoubleSlash(s)[|ReplaceDoubleSlash(s)| - 1] == '/'
    decreases |s|
  {
    if |s| >= 2 {
      if s[0] == '/' && s[1] == '/' {
        if |s| > 2 {
          ReplaceKeepsFinalSlash(s[2..]);
        }
      } else {
        ReplaceKeepsFinalSlash(s[1..]);
      }
    }
  }

  /** No pair of slashes straddles a boundary that is followed by a non-slash. */
  lemma {:induction false} ReplaceAppend(s: string, t: string)
    requires |t| == 0 || t[0] != '/'
    ensures ReplaceDoubleSlash(s + t) == ReplaceDoubleSlash(s) + ReplaceDoubleSlash(t)
    decreases |s|
  {
    var st := s + t;
    if |s| == 0 {
      assert st == t;
    } else if |t| == 0 {
      assert st == s;
    } else if |s| == 1 {
      assert st[0] == s[0] && st[1] == t[0];
      assert st[1..] == t;
      assert ReplaceDoubleSlash(st) == [s[0]] + ReplaceDoubleSlash(t);
    } else if s[0] == '/' && s[1] == '/' {
      assert st[0] == '/' && st[1] == '/';
      assert st[2..] == s[2..] + t;
      ReplaceAppend(s[2..], t);
      assert ReplaceDoubleSlash(st) == "/" + (ReplaceDoubleSlash(s[2..]) + ReplaceDoubleSlash(t));
    } else {
      assert st[0] == s[0] && st[1] == s[1];
      assert st[1..] == s[1..] + t;
      ReplaceAppend(s[1..], t);
      assert ReplaceDoubleSlash(st) == [s[0]] + (ReplaceDoubleSlash(s[1..]) + ReplaceDoubleSlash(t));
    }
  }

  /** When `s` has no run of three slashes, the single pass leaves no "//" behind. */
  lemma {:induction false} ReplaceClearsDoublesWithoutTriple(s: string)
    requires NoTriple(s)
    ensures NoDouble(ReplaceDoubleSlash(s))
    decreases |s|
  {
    var r := ReplaceDoubleSlash(s);
    if |s| >= 2 {
      var drop := if s[0] == '/' && s[1] == '/' then 2 else 1;
      var t := s[drop..];
      NoTripleSuffix(s, drop);
      ReplaceClearsDoublesWithoutTriple(t);
      var rt := ReplaceDoubleSlash(t);
      assert r == r[..1] + rt;
      forall k | 0 <= k < |r| - 1
        ensures r[k] != '/' || r[k + 1] != '/'
      {
        if k == 0 {
          ReplaceKeepsFirst(t);
          assert r[1] == t[0] == s[drop];
          if drop == 2 {
            assert s[0] != '/' || s[1] != '/' || s[2] != '/';
          }
        } else {
          assert r[k] == rt[k - 1] && r[k + 1] == rt[k];
        }
      }
    }
  }


  /** A run of three slashes comes out as two: the pass is not a full collapse. */
  lemma ReplaceIsSinglePass()
    ensures ReplaceDoubleSlash("///") == "//"
    ensures ReplaceDoubleSlash("a////b") == "a//b"
  {
  }

  // ---------------------------------------------------------------------------
  // str.split("/") and "/".join(...)
  // ---------------------------------------------------------------------------

  /** `s.split("/")`: always at least one part, and no part contains a slash. */
  function SplitSlash(s: string): (parts: seq<string>)
    ensures |parts| >= 1
    ensures forall k :: 0 <= k < |parts| ==> '/' !in parts[k]
    decreases |s|
  {
    if |s| == 0 then [""]
    else
      var rest := SplitSlash(s[1..]);
      if s[0] == '/' then [""] + rest
      else [[s[0]] + rest[0]] + rest[1..]
  }

  /** `"/".join(parts)`; the join of no parts is "". */
  function JoinSlash(parts: seq<string>): string
    decreases |parts|
  {
    if |parts| == 0 then ""
    else if |parts| == 1 then parts[0]
    else parts[0] + "/" + JoinSlash(parts[1..])
  }

  /** Joining the parts of a split gives back the original string. */
  lemma {:induction false} JoinSplit(s: string)
    ensures JoinSlash(SplitSlash(s)) == s
    decreases |s|
  {
    if |s| > 0 {
      var rest := SplitSlash(s[1..]);
      JoinSplit(s[1..]);
      if s[0] == '/' {
        assert JoinSlash([""] + rest) == "" + "/" + JoinSlash(rest);
      } else if |rest| == 1 {
        assert SplitSlash(s) == [[s[0]] + rest[0]];
      } else {
        var parts := [[s[0]] + rest[0]] + rest[1..];
        assert parts[1..] == rest[1..];
        assert JoinSlash(rest) == rest[0] + "/" + JoinSlash(rest[1..]);
      }
    }
  }

  /** A string without slashes splits into itself alone. */
  lemma {:induction false} SplitWithoutSlash(s: string)
    requires '/' !in s
    ensures SplitSlash(s) == [s]
    decreases |s|
  {
    if |s| > 0 {
      assert s[0] in s;
      assert forall c :: c in s[1..] ==> c in s;
      SplitWithoutSlash(s[1..]);
      assert [s[0]] + s[1..] == s;
    }
  }

  /** A string split on its slashes has more than one part exactly when it holds a slash. */
  lemma {:induction false} SplitManyIffSlash(s: string)
    ensures |SplitSlash(s)| >= 2 <==> '/' in s
    decreases |s|
  {
    if |s| > 0 {
      assert s == [s[0]] + s[1..];
      SplitManyIffSlash(s[1..]);
    }
  }

  /** Splitting distributes over a join at one slash. */
  lemma {:induction false} SplitAppend(a: string, b: string)
    ensures SplitSlash(a + "/" + b) == SplitSlash(a) + SplitSlash(b)
    decreases |a|
  {
    var ab := a + "/" + b;
    if |a| == 0 {
      assert ab == "/" + b;
      assert ab[0] == '/' && ab[1..] == b;
    } else {
      assert ab[0] == a[0];
      assert ab[1..] == a[1..] + "/" + b;
      SplitAppend(a[1..], b);
      var ra := SplitSlash(a[1..]);
      var rest := ra + SplitSlash(b);
      if a[0] == '/' {
        assert SplitSlash(ab) == [""] + rest;
      } else {
        assert rest[0] == ra[0];
        assert rest[1..] == ra[1..] + SplitSlash(b);
        assert SplitSlash(ab) == [[a[0]] + ra[0]] + (ra[1..] + SplitSlash(b));
      }
    }
  }

  /** Splitting a join of slash-free parts gives the parts back. */
  lemma {:induction false} SplitJoin(parts: seq<string>)
    requires |parts| >= 1
    requires forall k :: 0 <= k < |parts| ==> '/' !in parts[k]
    ensures SplitSlash(JoinSlash(parts)) == parts
    decreases |parts|
  {
    if |parts| == 1 {
      SplitWithoutSlash(parts[0]);
    } else {
      SplitJoin(parts[1..]);
      SplitWithoutSlash(parts[0]);
      SplitAppend(parts[0], JoinSlash(parts[1..]));
    }
  }

  /** Joining all parts but the last, then re-attaching the last one, gives the full join. */
  lemma {:induction false} JoinDropLast(parts: seq<string>)
    requires |parts| >= 2
    ensures JoinSlash(parts[..|parts| - 1]) + "/" + parts[|parts| - 1] == JoinSlash(parts)
    decreases |parts|
  {
    if |parts| > 2 {
      var tail := parts[1..];
      JoinDropLast(tail);
      assert tail[..|tail| - 1] == parts[1..|parts| - 1];
      var init := parts[..|parts| - 1];
      assert init[1..] == parts[1..|parts| - 1];
      assert JoinSlash(init) == parts[0] + "/" + JoinSlash(init[1..]);
    } else {
      assert parts[..1] == [parts[0]];
    }
  }

  // ---------------------------------------------------------------------------
  // ensure_parent_dirs: the parent split
  // ---------------------------------------------------------------------------

  /** `"/".join(path.split("/")[:-1])`: the directory part of a path. */
  function ParentDir(path: string): string {
    var parts := SplitSlash(path);
    JoinSlash(parts[..|parts| - 1])
  }

  /**
    The parent is "" for a path without a slash; otherwise it is the prefix of the path in
    front of its last slash.
  */
  lemma ParentDirIsPrefixBeforeLastSlash(path: string)
    ensures '/' !in path ==> ParentDir(path) == ""
    ensures '/' in path ==>
              |ParentDir(path)| < |path|
              && path[..|ParentDir(path)|] == ParentDir(path)
              && path[|ParentDir(path)|] == '/'
              && '/' !in path[|ParentDir(path)| + 1..]
  {
    var parts := SplitSlash(path);
    SplitManyIffSlash(path);
    if '/' in path {
      JoinSplit(path);
      JoinDropLast(parts);
      var p := ParentDir(path);
      var last := parts[|parts| - 1];
      assert path == p + "/" + last;
      assert path[|p| + 1..] == last;
    } else {
      assert parts[..|parts| - 1] == [];
    }
  }

  // ---------------------------------------------------------------------------
  // lakehouse_dest_path
  // ---------------------------------------------------------------------------

  /**
    The pieces joined by `lakehouse_dest_path`, in order: the files root, the site folder,
    the stripped target folder when it is configured, the stripped relative path when it is
    non-empty, and the file name.
  */
  function DestPieces(root: string, siteFolder: string, targetFolder: string,
                      relPath: string, filename: string): seq<string>
  {
    [root, siteFolder] + OptionalPiece(targetFolder) + OptionalPiece(relPath) + [filename]
  }

  /**
    Destination path of a file in the lakehouse: the pieces joined with "/", followed by
    one `replace("//", "/")` pass.
  */
  function DestPath(root: string, siteFolder: string, targetFolder: string,
                    relPath: string, filename: string): string
  {
    ReplaceDoubleSlash(JoinSlash(DestPieces(root, siteFolder, targetFolder, relPath, filename)))
  }

  lemma {:induction false} NonSlashJoin(parts: seq<string>)
    ensures NonSlash(JoinSlash(parts)) == NonSlashAll(parts)
    decreases |parts|
  {
    if |parts| >= 2 {
      NonSlashJoin(parts[1..]);
      NonSlashAppend(parts[0] + "/", JoinSlash(parts[1..]));
      NonSlashAppend(parts[0], "/");
      assert parts[0] + "/" + JoinSlash(parts[1..]) == (parts[0] + "/") + JoinSlash(parts[1..]);
    }
  }

  /** The non-slash characters of all parts, concatenated in order. */
  function NonSlashAll(parts: seq<string>): string
    decreases |parts|
  {
    if |parts| == 0 then "" else NonSlash(parts[0]) + NonSlashAll(parts[1..])
  }

  /** The optional middle pieces: the stripped target folder and the stripped relative path. */
  function OptionalPiece(segment: string): seq<string> {
    if segment != "" then [Strip(segment)] else []
  }

  /**
    Segment order: apart from slashes, the destination path is exactly the root, then the
    site folder, then the target folder, then the relative path, then the file name.
  */
  lemma DestPathSegmentOrder(root: string, siteFolder: string, targetFolder: string,
                             relPath: string, filename: string)
    ensures NonSlash(DestPath(root, siteFolder, targetFolder, relPath, filename))
            == NonSlash(root) + NonSlash(siteFolder) + NonSlash(targetFolder)
               + NonSlash(relPath) + NonSlash(filename)
  {
    var a := [root, siteFolder];
    var t := OptionalPiece(targetFolder);
    var r := OptionalPiece(relPath);
    var at := a + t;
    var atr := at + r;
    var pieces := atr + [filename];
    assert pieces == DestPieces(root, siteFolder, targetFolder, relPath, filename);
    ReplaceKeepsNonSlash(JoinSlash(pieces));
    NonSlashJoin(pieces);
    NonSlashAllAppend(a, t);
    NonSlashAllAppend(at, r);
    NonSlashAllAppend(atr, [filename]);
    assert a == [root] + [siteFolder];
    NonSlashAllAppend([root], [siteFolder]);
    NonSlashAllSingle(root);
    NonSlashAllSingle(siteFolder);
    NonSlashAllSingle(filename);
    NonSlashAllOptional(targetFolder);
    NonSlashAllOptional(relPath);
  }

  lemma NonSlashAllSingle(x: string)
    ensures NonSlashAll([x]) == NonSlash(x)
  {
    assert [x][1..] == [];
    assert NonSlashAll([x]) == NonSlash(x) + NonSlashAll([]);
  }

  lemma NonSlashAllOptional(segment: string)
    ensures NonSlashAll(OptionalPiece(segment)) == NonSlash(segment)
  {
    if segment != "" {
      StripKeepsNonSlash(segment);
      NonSlashAllSingle(Strip(segment));
    }
  }

  lemma {:induction false} NonSlashAllAppend(a: seq<string>, b: seq<string>)
    ensures NonSlashAll(a + b) == NonSlashAll(a) + NonSlashAll(b)
    decreases |a|
  {
    if |a| == 0 {
      assert a + b == b;
    } else {
      assert (a + b)[1..] == a[1..] + b;
      NonSlashAllAppend(a[1..], b);
    }
  }

  /**
    A file name without slashes is the last component of its destination path, and the
    directory `ensure_parent_dirs` creates is everything in front of it.
  */
  lemma DestPathParent(root: string, siteFolder: string, targetFolder: string,
                       relPath: string, filename: string)
    requires '/' !in filename
    ensures var path := DestPath(root, siteFolder, targetFolder, relPath, filename);
            ParentDir(path) + "/" + filename == path
  {
    var pieces := DestPieces(root, siteFolder, targetFolder, relPath, filename);
    var n := |pieces|;
    JoinDropLast(pieces);
    var front := JoinSlash(pieces[..n - 1]) + "/";
    assert JoinSlash(pieces) == front + filename;
    if |filename| > 0 {
      assert filename[0] in filename;
    }
    ReplaceAppend(front, filename);
    assert NoDouble(filename) by {
      forall k | 0 <= k < |filename| - 1
        ensures filename[k] != '/' || filename[k + 1] != '/'
      {
        assert filename[k] in filename;
      }
    }
    ReplaceKeepsNoDouble(filename);
    var rf := ReplaceDoubleSlash(front);
    ReplaceKeepsFinalSlash(front);
    var p := rf[..|rf| - 1];
    assert rf == p + "/";
    var path := DestPath(root, siteFolder, targetFolder, relPath, filename);
    assert path == p + "/" + filename;
    SplitAppend(p, filename);
    SplitWithoutSlash(filename);
    JoinSplit(p);
    var parts := SplitSlash(path);
    assert parts[..|parts| - 1] == SplitSlash(p);
  }

  /** With no target folder and no relative path the path is root/site/filename, rewritten once. */
  lemma DestPathWithoutOptionalSegments(root: string, siteFolder: string, filename: string)
    ensures DestPath(root, siteFolder, "", "", filename)
            == ReplaceDoubleSlash(root + "/" + siteFolder + "/" + filename)
    ensures NoDouble(root + "/" + siteFolder + "/" + filename) ==>
              DestPath(root, siteFolder, "", "", filename) == root + "/" + siteFolder + "/" + filename
  {
    DestPathJoinsThree(root, siteFolder, filename);
    if NoDouble(root + "/" + siteFolder + "/" + filename) {
      ReplaceKeepsNoDouble(root + "/" + siteFolder + "/" + filename);
    }
  }

  lemma DestPathJoinsThree(root: string, siteFolder: string, filename: string)
    ensures DestPath(root, siteFolder, "", "", filename)
            == ReplaceDoubleSlash(root + "/" + siteFolder + "/" + filename)
  {
    var pieces := DestPieces(root, siteFolder, "", "", filename);
    assert pieces == [root, siteFolder, filename];
    assert pieces[1..] == [siteFolder, filename];
    assert pieces[1..][1..] == [filename];
    assert JoinSlash(pieces[1..]) == siteFolder + "/" + filename;
    assert JoinSlash(pieces) == root + "/" + siteFolder + "/" + filename;
  }

  /** Every part is a clean segment. */
  ghost predicate AllClean(parts: seq<string>) {
    forall k :: 0 <= k < |parts| ==> Clean(parts[k])
  }

  lemma AllCleanAppend(a: seq<string>, b: seq<string>)
    requires AllClean(a) && AllClean(b)
    ensures AllClean(a + b)
  {
    forall k | 0 <= k < |a + b|
      ensures Clean((a + b)[k])
    {
      if k < |a| {
        assert (a + b)[k] == a[k];
      } else {
        assert (a + b)[k] == b[k - |a|];
      }
    }
  }

  lemma JoinSlashCons(head: string, tail: seq<string>)
    requires |tail| >= 1
    ensures JoinSlash([head] + tail) == head + "/" + JoinSlash(tail)
  {
    assert ([head] + tail)[1..] == tail;
  }

  /** Joining two clean segments at one slash gives a clean segment. */
  lemma CleanJoin2(a: string, b: string)
    requires Clean(a) && Clean(b)
    ensures Clean(a + "/" + b)
  {
    var s := a + "/" + b;
    forall k | 0 <= k < |s| - 1
      ensures s[k] != '/' || s[k + 1] != '/'
    {
      if k < |a| - 1 {
        assert s[k] == a[k] && s[k + 1] == a[k + 1];
      } else if k == |a| - 1 {
        assert s[k] == a[|a| - 1];
      } else if k == |a| {
        assert s[k + 1] == b[0];
      } else {
        assert s[k] == b[k - |a| - 1] && s[k + 1] == b[k - |a|];
      }
    }
  }

  lemma {:induction false} CleanJoin(parts: seq<string>)
    requires |parts| >= 1 && AllClean(parts)
    ensures Clean(JoinSlash(parts))
    decreases |parts|
  {
    if |parts| >= 2 {
      CleanJoin(parts[1..]);
      CleanJoin2(parts[0], JoinSlash(parts[1..]));
    }
  }

  /** A piece that is either absent or clean. */
  ghost predicate CleanOptional(segment: string) {
    segment != "" ==> Clean(Strip(segment))
  }

  /** When every piece is a clean segment, the replace pass has nothing to rewrite. */
  lemma DestPathOfCleanPieces(root: string, siteFolder: string, targetFolder: string,
                              relPath: string, filename: string)
    requires Clean(root) && Clean(siteFolder) && Clean(filename)
    requires CleanOptional(targetFolder) && CleanOptional(relPath)
    ensures DestPath(root, siteFolder, targetFolder, relPath, filename)
            == JoinSlash(DestPieces(root, siteFolder, targetFolder, relPath, filename))
    ensures NoDouble(DestPath(root, siteFolder, targetFolder, relPath, filename))
  {
    var pieces := DestPieces(root, siteFolder, targetFolder, relPath, filename);
    AllCleanPieces(root, siteFolder, targetFolder, relPath, filename);
    CleanJoin(pieces);
    ReplaceKeepsNoDouble(JoinSlash(pieces));
  }

  lemma AllCleanPieces(root: string, siteFolder: string, targetFolder: string,
                       relPath: string, filename: string)
    requires Clean(root) && Clean(siteFolder) && Clean(filename)
    requires CleanOptional(targetFolder) && CleanOptional(relPath)
    ensures AllClean(DestPieces(root, siteFolder, targetFolder, relPath, filename))
  {
    var t := OptionalPiece(targetFolder);
    var r := OptionalPiece(relPath);
    AllCleanSingle(root);
    AllCleanSingle(siteFolder);
    AllCleanSingle(filename);
    AllCleanOptional(targetFolder);
    AllCleanOptional(relPath);
    AllCleanAppend([root], [siteFolder]);
    assert [root] + [siteFolder] == [root, siteFolder];
    AllCleanAppend([root, siteFolder], t);
    AllCleanAppend([root, siteFolder] + t, r);
    AllCleanAppend([root, siteFolder] + t + r, [filename]);
  }

  lemma AllCleanSingle(s: string)
    requires Clean(s)
    ensures AllClean([s])
  {
  }

  lemma AllCleanOptional(segment: string)
    requires CleanOptional(segment)
    ensures AllClean(OptionalPiece(segment))
  {
    if segment != "" {
      AllCleanSingle(Strip(segment));
    }
  }

  /**
    With clean pieces, the path's slash-separated components are those of the root, the
    site folder, the stripped target folder (when configured), the stripped relative path
    (when non-empty) and the file name, in that order.
  */
  lemma DestPathCleanComponents(root: string, siteFolder: string, targetFolder: string,
                                relPath: string, filename: string)
    requires Clean(root) && Clean(siteFolder) && Clean(filename)
    requires CleanOptional(targetFolder) && CleanOptional(relPath)
    ensures SplitSlash(DestPath(root, siteFolder, targetFolder, relPath, filename))
            == SplitSlash(root) + SplitSlash(siteFolder)
               + SplitAll(OptionalPiece(targetFolder)) + SplitAll(OptionalPiece(relPath))
               + SplitSlash(filename)
  {
    DestPathOfCleanPieces(root, siteFolder, targetFolder, relPath, filename);
    var a := [root, siteFolder];
    var t := OptionalPiece(targetFolder);
    var r := OptionalPiece(relPath);
    var at := a + t;
    var atr := at + r;
    var pieces := atr + [filename];
    assert pieces == DestPieces(root, siteFolder, targetFolder, relPath, filename);
    SplitJoinAll(pieces);
    SplitAllAppend(a, t);
    SplitAllAppend(at, r);
    SplitAllAppend(atr, [filename]);
    assert a == [root] + [siteFolder];
    SplitAllAppend([root], [siteFolder]);
    SplitAllSingle(root);
    SplitAllSingle(siteFolder);
    SplitAllSingle(filename);
  }

  /** The components of every part, in order. */
  function SplitAll(parts: seq<string>): seq<string>
    decreases |parts|
  {
    if |parts| == 0 then [] else SplitSlash(parts[0]) + SplitAll(parts[1..])
  }

  lemma SplitAllSingle(x: string)
    ensures SplitAll([x]) == SplitSlash(x)
  {
    assert [x][1..] == [];
    assert SplitAll([x]) == SplitSlash(x) + SplitAll([]);
  }

  lemma {:induction false} SplitAllAppend(a: seq<string>, b: seq<string>)
    ensures SplitAll(a + b) == SplitAll(a) + SplitAll(b)
    decreases |a|
  {
    if |a| == 0 {
      assert a + b == b;
    } else {
      assert (a + b)[1..] == a[1..] + b;
      SplitAllAppend(a[1..], b);
    }
  }

  lemma {:induction false} SplitJoinAll(parts: seq<string>)
    requires |parts| >= 1
    ensures SplitSlash(JoinSlash(parts)) == SplitAll(parts)
    decreases |parts|
  {
    if |parts| == 1 {
      assert SplitAll(parts) == SplitSlash(parts[0]) + [];
    } else {
      SplitJoinAll(parts[1..]);
      SplitAppend(parts[0], JoinSlash(parts[1..]));
    }
  }

  /** A string that neither starts nor ends with a slash is left alone by `strip`. */
  lemma StripKeepsUnslashedEnds(s: string)
    requires |s| == 0 || (s[0] != '/' && s[|s| - 1] != '/')
    ensures Strip(s) == s
  {
  }

  /** Worked example: no target folder and no relative path. */
  lemma DestPathExampleTopLevel(root: string, siteFolder: string, filename: string)
    requires root == "Files" && siteFolder == "siteA" && filename == "a.txt"
    ensures DestPath(root, siteFolder, "", "", filename) == "Files/siteA/a.txt"
  {
    var p := [root, siteFolder, filename];
    assert Clean(root) && Clean(siteFolder) && Clean(filename);
    DestPathOfCleanPieces(root, siteFolder, "", "", filename);
    assert DestPieces(root, siteFolder, "", "", filename) == p;
    assert JoinSlash(p[2..]) == filename;
    assert JoinSlash(p[1..]) == siteFolder + "/" + filename;
  }

  /**
    A doubled slash can survive: a root ending in "/" and a site folder starting with "/"
    meet as "///", which the single pass turns into "//" (for instance "Files/" and
    "/siteA" give "Files//siteA/a.txt").
  */
  lemma DestPathMayKeepDoubleSlash(word: string, site: string, filename: string)
    requires '/' !in word
    requires |site| > 0 && '/' !in site && |filename| > 0 && '/' !in filename
    ensures DestPath(word + "/", "/" + site, "", "", filename) == word + "//" + site + "/" + filename
  {
    var root, siteFolder := word + "/", "/" + site;
    DestPathJoinsThree(root, siteFolder, filename);
    var rest := site + "/" + filename;
    assert root + "/" + siteFolder + "/" + filename == (word + "///") + rest;
    SlashFreePairUnchanged(site, filename);
    ReplaceAfterTriple(word, rest);
    assert (word + "//") + rest == word + "//" + site + "/" + filename;
  }

  lemma SlashFreePairUnchanged(a: string, b: string)
    requires |a| > 0 && '/' !in a && |b| > 0 && '/' !in b
    ensures ReplaceDoubleSlash(a + "/" + b) == a + "/" + b
  {
    WithoutSlashIsClean(a);
    WithoutSlashIsClean(b);
    CleanJoin2(a, b);
    ReplaceKeepsNoDouble(a + "/" + b);
  }

  lemma ReplaceAfterTriple(word: string, rest: string)
    requires '/' !in word && |rest| > 0 && rest[0] != '/'
    requires ReplaceDoubleSlash(rest) == rest
    ensures ReplaceDoubleSlash(word + "///" + rest) == word + "//" + rest
  {
    ReplaceAppend(word + "///", rest);
    ReplaceWordThenTriple(word);
  }

  /** A non-empty string without slashes is a clean segment. */
  lemma WithoutSlashIsClean(w: string)
    requires |w| > 0 && '/' !in w
    ensures Clean(w)
  {
    assert w[0] in w && w[|w| - 1] in w;
    forall j, k | 0 <= j < k < |w| && k == j + 1
      ensures w[j] != '/' || w[k] != '/'
    {
      assert w[j] in w;
    }
  }

  /** A slash-free word followed by "///" comes out as the word followed by "//". */
  lemma {:induction false} ReplaceWordThenTriple(w: string)
    requires '/' !in w
    ensures ReplaceDoubleSlash(w + "///") == w + "//"
    decreases |w|
  {
    var s := w + "///";
    if |w| == 0 {
      assert s == "///" && s[2..] == "/";
    } else {
      assert s[0] == w[0] && w[0] in w;
      assert s[1..] == w[1..] + "///";
      ReplaceWordThenTriple(w[1..]);
      assert w == [w[0]] + w[1..];
    }
  }

  /**
    With clean segments throughout, the destination is the plain slash-join
    root/site/target/rel/filename (for instance Files/siteA/01.folder/sub1/sub2/doc.pdf).
  */
  lemma DestPathCleanForm(root: string, siteFolder: string, targetFolder: string,
                          relPath: string, filename: string)
    requires Clean(root) && Clean(siteFolder) && Clean(targetFolder)
    requires Clean(relPath) && Clean(filename)
    ensures DestPath(root, siteFolder, targetFolder, relPath, filename)
            == root + "/" + (siteFolder + "/" + (targetFolder + "/" + (relPath + "/" + filename)))
  {
    StripKeepsUnslashedEnds(targetFolder);
    StripKeepsUnslashedEnds(relPath);
    DestPathOfCleanPieces(root, siteFolder, targetFolder, relPath, filename);
    DestPiecesAllPresent(root, siteFolder, targetFolder, relPath, filename);
    JoinSlashFive(root, siteFolder, targetFolder, relPath, filename);
  }

  lemma DestPiecesAllPresent(root: string, siteFolder: string, targetFolder: string,
                             relPath: string, filename: string)
    requires targetFolder != "" && Strip(targetFolder) == targetFolder
    requires relPath != "" && Strip(relPath) == relPath
    ensures DestPieces(root, siteFolder, targetFolder, relPath, filename)
            == [root, siteFolder, targetFolder, relPath, filename]
  {
  }

  lemma JoinSlashFive(a: string, b: string, c: string, d: string, e: string)
    ensures JoinSlash([a, b, c, d, e]) == a + "/" + (b + "/" + (c + "/" + (d + "/" + e)))
  {
    assert JoinSlash([e]) == e;
    assert JoinSlash([d, e]) == d + "/" + e by {
      assert [d, e][1..] == [e];
    }
    assert JoinSlash([c, d, e]) == c + "/" + (d + "/" + e) by {
      assert [c, d, e][1..] == [d, e];
    }
    assert JoinSlash([b, c, d, e]) == b + "/" + (c + "/" + (d + "/" + e)) by {
      assert [b, c, d, e][1..] == [c, d, e];
    }
    assert [a, b, c, d, e][1..] == [b, c, d, e];
  }
}
