/**
  The copy loop: every enumerated file with a download URL is downloaded and, when the
  download answers 200, written to its mirrored lakehouse path and counted. Each entry comes
  paired with the HTTP status its own download request would get: the server may answer
  every request differently.
*/
module Copy {
  import opened Wrappers
  import Tree
  import Paths

  /** The configured parts of every destination path. */
  datatype Settings = Settings(filesRoot: string, siteFolder: string, targetFolder: string)

  /** `if not f.get("downloadUrl")` lets through only a present, non-empty URL. */
  predicate HasUrl(e: Tree.FileEntry) {
    e.downloadUrl.Some? && e.downloadUrl.value != ""
  }

  /**
    One iteration's input: an enumerated entry and the status its own download request would
    get (ignored when the entry has no URL). Each entry has its own request, so two entries
    with the same URL may be answered differently.
  */
  datatype Download = Download(entry: Tree.FileEntry, status: int)

  /** An entry that gets written: it has a URL and its download request answers 200. */
  predicate Copyable(d: Download) {
    HasUrl(d.entry) && d.status == 200
  }

  /** The entries that are written, in the order of the entry list. */
  function Copied(downloads: seq<Download>): (r: seq<Tree.FileEntry>)
    ensures |r| <= |downloads|
    ensures forall k :: 0 <= k < |r| ==> HasUrl(r[k])
    decreases |downloads|
  {
    if |downloads| == 0 then []
    else
      var rest := Copied(downloads[1..]);
      if Copyable(downloads[0]) then [downloads[0].entry] + rest else rest
  }

  /**
    An entry is written exactly when the request made for it at some position of the list
    answers 200: nothing else is dropped and nothing else is added.
  */
  lemma {:induction false} CopiedMembers(downloads: seq<Download>, e: Tree.FileEntry)
    ensures e in Copied(downloads) <==>
      exists k :: 0 <= k < |downloads| && downloads[k].entry == e && Copyable(downloads[k])
    decreases |downloads|
  {
    if |downloads| > 0 {
      var tail := downloads[1..];
      CopiedMembers(tail, e);
      if exists k :: 0 <= k < |downloads| && downloads[k].entry == e && Copyable(downloads[k]) {
        var k :| 0 <= k < |downloads| && downloads[k].entry == e && Copyable(downloads[k]);
        if k > 0 {
          assert tail[k - 1] == downloads[k];
        }
      }
      if exists k :: 0 <= k < |tail| && tail[k].entry == e && Copyable(tail[k]) {
        var k :| 0 <= k < |tail| && tail[k].entry == e && Copyable(tail[k]);
        assert downloads[k + 1] == tail[k];
      }
    }
  }

  /**
    Each request is answered on its own: the same entry listed twice is written once when
    only one of its two downloads answers 200.
  */
  lemma RequestsAnsweredSeparately(e: Tree.FileEntry, code: int)
    requires HasUrl(e) && code != 200
    ensures Copied([Download(e, 200), Download(e, code)]) == [e]
    ensures Copied([Download(e, code), Download(e, 200)]) == [e]
  {
    assert [Download(e, 200), Download(e, code)][1..] == [Download(e, code)];
    assert [Download(e, code), Download(e, 200)][1..] == [Download(e, 200)];
    assert [Download(e, code)][1..] == [];
    assert [Download(e, 200)][1..] == [];
  }

  /** Where an entry is written: its relative path and name under the configured folders. */
  function DestOf(settings: Settings, e: Tree.FileEntry): string {
    Paths.DestPath(settings.filesRoot, settings.siteFolder, settings.targetFolder, e.relPath, e.name)
  }

  /** The destination of each entry, in order. */
  function DestPaths(settings: Settings, entries: seq<Tree.FileEntry>): seq<string>
    decreases |entries|
  {
    if |entries| == 0 then [] else [DestOf(settings, entries[0])] + DestPaths(settings, entries[1..])
  }

  /** The k-th destination is that of the k-th entry. */
  lemma {:induction false} DestPathsAt(settings: Settings, entries: seq<Tree.FileEntry>, k: nat)
    requires k < |entries|
    ensures k < |DestPaths(settings, entries)| && DestPaths(settings, entries)[k] == DestOf(settings, entries[k])
    decreases k
  {
    if k > 0 {
      DestPathsAt(settings, entries[1..], k - 1);
    }
  }

  /** One destination per entry. */
  lemma {:induction false} DestPathsLength(settings: Settings, entries: seq<Tree.FileEntry>)
    ensures |DestPaths(settings, entries)| == |entries|
    decreases |entries|
  {
    if |entries| > 0 {
      DestPathsLength(settings, entries[1..]);
    }
  }

  /** Filtering a concatenation filters each part: earlier entries are decided first. */
  lemma {:induction false} CopiedAppend(a: seq<Download>, b: seq<Download>)
    ensures Copied(a + b) == Copied(a) + Copied(b)
    decreases |a|
  {
    if |a| == 0 {
      assert a + b == b;
    } else {
      assert (a + b)[0] == a[0];
      assert (a + b)[1..] == a[1..] + b;
      CopiedAppend(a[1..], b);
    }
  }

  /**
    A skipped entry (no URL, or a download that did not answer 200) does not stop the loop:
    the entries before and after it are copied exactly as if it were absent.
  */
  lemma SkippedEntryChangesNothing(before: seq<Download>, d: Download, after: seq<Download>)
    requires !Copyable(d)
    ensures Copied(before + [d] + after) == Copied(before) + Copied(after)
  {
    CopiedAppend(before + [d], after);
    CopiedAppend(before, [d]);
    CopiedSingle(d);
  }

  /**
    The loop of the script. `copied` counts the entries that have a URL and whose download
    answers 200, and `written` lists their destination paths in entry order.
  */
  method CopyAll(settings: Settings, downloads: seq<Download>)
    returns (copied: nat, written: seq<string>)
    ensures written == DestPaths(settings, Copied(downloads))
    ensures copied == |written|
    ensures copied <= |downloads|
  {
    copied := 0;
    written := [];
    var i := 0;
    while i < |downloads|
      invariant 0 <= i <= |downloads|
      invariant written == DestPaths(settings, Copied(downloads[..i]))
      invariant copied == |written|
    {
      var f, code := downloads[i].entry, downloads[i].status;
      CopyStep(settings, downloads, i);
      i := i + 1;
      if !HasUrl(f) {
        continue;
      }
      if code != 200 {
        continue;
      }
      written := written + [DestOf(settings, f)];
      copied := copied + 1;
    }
    assert downloads[..i] == downloads;
    DestPathsLength(settings, Copied(downloads));
  }

  /** One more entry adds its destination exactly when it is copyable. */
  lemma CopyStep(settings: Settings, downloads: seq<Download>, i: nat)
    requires i < |downloads|
    ensures DestPaths(settings, Copied(downloads[..i + 1]))
            == DestPaths(settings, Copied(downloads[..i]))
               + (if Copyable(downloads[i]) then [DestOf(settings, downloads[i].entry)] else [])
  {
    var d := downloads[i];
    assert downloads[..i + 1] == downloads[..i] + [d];
    CopiedAppend(downloads[..i], [d]);
    CopiedSingle(d);
    DestPathsAppend(settings, Copied(downloads[..i]), Copied([d]));
  }

  /** A one-entry list is kept exactly when the entry is copyable. */
  lemma CopiedSingle(d: Download)
    ensures Copied([d]) == if Copyable(d) then [d.entry] else []
  {
    assert [d][1..] == [];
  }

  /** Destinations of a concatenation are those of each part, in order. */
  lemma {:induction false} DestPathsAppend(settings: Settings, a: seq<Tree.FileEntry>, b: seq<Tree.FileEntry>)
    ensures DestPaths(settings, a + b) == DestPaths(settings, a) + DestPaths(settings, b)
    decreases |a|
  {
    if |a| == 0 {
      assert a + b == b;
    } else {
      assert (a + b)[0] == a[0];
      assert (a + b)[1..] == a[1..] + b;
      DestPathsAppend(settings, a[1..], b);
    }
  }

  /**
    Each written path ends in the entry's own name, after the directory that
    `ensure_parent_dirs` creates for it.
  */
  lemma WrittenUnderParent(settings: Settings, downloads: seq<Download>, k: nat)
    requires k < |Copied(downloads)|
    requires '/' !in Copied(downloads)[k].name
    ensures var written := DestPaths(settings, Copied(downloads));
      k < |written| && Paths.ParentDir(written[k]) + "/" + Copied(downloads)[k].name == written[k]
  {
    var e := Copied(downloads)[k];
    DestPathsAt(settings, Copied(downloads), k);
    Paths.DestPathParent(settings.filesRoot, settings.siteFolder, settings.targetFolder, e.relPath, e.name);
  }
}
