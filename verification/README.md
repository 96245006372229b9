# SharePoint to OneLake recursive copy: a Dafny model

The notebook `notebook/sharepoint-to-onelake-recursive-copy.py` copies a SharePoint
document-library folder, recursively, into the Files area of a Fabric lakehouse. It works in
these steps:

1. It obtains a Microsoft Graph token and resolves the site.
2. It makes sure the target application holds a Sites.Selected "write" grant on the site.
   Optionally the calling application gets one too.
3. It picks the site's document library.
4. It walks the target folder depth first, following `@odata.nextLink` pages.
5. It downloads every file and writes it under a lakehouse path that mirrors the SharePoint
   structure.

This project models the pure decision logic inside those steps. The logic is written as
immutable datatypes and functions, and the remote answers are inputs:

| module | file | what it models |
|---|---|---|
| `Paths` | paths.dfy | `lakehouse_dest_path` and the parent split of `ensure_parent_dirs` |
| `Tree` | tree.dfy | the drive tree and `collect_files_recursive` |
| `Paging` | paging.dfy | the `@odata.nextLink` loop of `list_children_paged` |
| `Drives` | drives.dfy | the choice of the document library |
| `Grants` | grants.dfy | `resolve_app_name`, the grant scan and create decision, and which applications are granted |
| `Copy` | copy.dfy | the copy loop's skip and count logic |
| `Http` | http.dfy | `raise_for_status` |
| `Wrappers` | wrappers.dfy | `Option` and `Result` |

Python's string operations are written out over `seq<char>`:

- `strip("/")` removes every leading and trailing slash.
- `split("/")` always yields at least one part.
- `"/".join` of no parts is "".
- `replace("//", "/")` is one left-to-right pass over non-overlapping occurrences. So "///"
  becomes "//", and a root ending in "/" followed by a site folder starting with "/" still
  gives a doubled slash (`Paths.DestPathMayKeepDoubleSlash`). The model follows the code,
  which does not collapse them.

`LAKEHOUSE_FILES_ROOT`, `LAKEHOUSE_SITE_FOLDER` and `SP_TARGET_FOLDER_PATH` are parameters.
In `Copy` they are grouped as `Settings`.

A folder's children are a sequence of `Page` values: one page per reply of the next-link
chain, in chain order. `Page` wraps the page's item sequence so that recursion through
folders terminates.

## Model

| member | source | states |
|---|---|---|
| `Paths.Strip` | notebook/sharepoint-to-onelake-recursive-copy.py:257-260 | the stripped segment neither starts nor ends with "/" and is no longer than the input |
| `Paths.StripCutsOnlySlashes` | notebook/sharepoint-to-onelake-recursive-copy.py:257-260 | the stripped segment is a contiguous piece of the input, and everything cut in front of and behind it is a slash |
| `Paths.StripKeepsNonSlash` | notebook/sharepoint-to-onelake-recursive-copy.py:257-260 | stripping removes slashes only; every other character survives, in order |
| `Paths.StripEmptyIffAllSlashes` | notebook/sharepoint-to-onelake-recursive-copy.py:257-260 | a segment strips to "" exactly when it consists of slashes only |
| `Paths.StripIdempotent` | notebook/sharepoint-to-onelake-recursive-copy.py:257-260 | stripping twice is stripping once |
| `Paths.ReplaceDoubleSlash` | notebook/sharepoint-to-onelake-recursive-copy.py:263 | the replace pass never lengthens a string and maps only "" to "" |
| `Paths.ReplaceKeepsNoDouble` | notebook/sharepoint-to-onelake-recursive-copy.py:263 | a string without "//" is left unchanged |
| `Paths.ReplaceShortensDouble` | notebook/sharepoint-to-onelake-recursive-copy.py:263 | a string containing "//" gets strictly shorter |
| `Paths.ReplaceKeepsNonSlash` | notebook/sharepoint-to-onelake-recursive-copy.py:263 | the pass removes slashes only; all other characters survive in order |
| `Paths.ReplaceKeepsFirst` | notebook/sharepoint-to-onelake-recursive-copy.py:263 | the first character survives the pass |
| `Paths.ReplaceKeepsFinalSlash` | notebook/sharepoint-to-onelake-recursive-copy.py:263 | a trailing slash survives the pass |
| `Paths.ReplaceAppend` | notebook/sharepoint-to-onelake-recursive-copy.py:263 | the pass works piecewise across a boundary followed by a non-slash |
| `Paths.ReplaceClearsDoublesWithoutTriple` | notebook/sharepoint-to-onelake-recursive-copy.py:263 | without a run of three slashes the result holds no "//" |
| `Paths.ReplaceIsSinglePass` | notebook/sharepoint-to-onelake-recursive-copy.py:263 | "///" becomes "//" and "a////b" becomes "a//b": it is not a collapse |
| `Paths.SplitSlash` | notebook/sharepoint-to-onelake-recursive-copy.py:267 | `split("/")` gives at least one part and no part holds a slash |
| `Paths.JoinSplit` | notebook/sharepoint-to-onelake-recursive-copy.py:267 | joining the split parts gives the original string back |
| `Paths.SplitJoin` | notebook/sharepoint-to-onelake-recursive-copy.py:267 | splitting the join of a non-empty list of slash-free parts gives the parts back (`"/".join([])` splits to `[""]`) |
| `Paths.SplitManyIffSlash` | notebook/sharepoint-to-onelake-recursive-copy.py:267 | a string splits into two or more parts exactly when it contains a slash |
| `Paths.SplitAppend` | notebook/sharepoint-to-onelake-recursive-copy.py:267 | splitting `a + "/" + b` gives the parts of `a` followed by the parts of `b` |
| `Paths.JoinDropLast` | notebook/sharepoint-to-onelake-recursive-copy.py:267 | for at least two parts, the join of all parts but the last, then "/", then the last part, is the full join |
| `Paths.ParentDirIsPrefixBeforeLastSlash` | notebook/sharepoint-to-onelake-recursive-copy.py:265-269 | the parent is "" for a path without "/", and otherwise the prefix in front of the last "/" |
| `Paths.DestPathSegmentOrder` | notebook/sharepoint-to-onelake-recursive-copy.py:254-263 | apart from slashes, the path is root, then site folder, then target folder, then relative path, then file name |
| `Paths.DestPathWithoutOptionalSegments` | notebook/sharepoint-to-onelake-recursive-copy.py:256-263 | with no target folder and no relative path the path is the replace pass over root/site/filename; it equals that join when the join has no "//" |
| `Paths.DestPathExampleTopLevel` | notebook/sharepoint-to-onelake-recursive-copy.py:254-263 | "Files", "siteA", no target folder, no relative path and "a.txt" give "Files/siteA/a.txt" |
| `Paths.DestPathMayKeepDoubleSlash` | notebook/sharepoint-to-onelake-recursive-copy.py:256-263 | a "//" can survive: a slash-free word then "/" as root, "/" then a non-empty slash-free site folder, no target folder, no relative path and a non-empty slash-free file name give word + "//" + site + "/" + file name |
| `Paths.DestPathOfCleanPieces` | notebook/sharepoint-to-onelake-recursive-copy.py:256-263 | clean pieces pass through the replace untouched, and the path has no "//" |
| `Paths.DestPathCleanComponents` | notebook/sharepoint-to-onelake-recursive-copy.py:256-263 | with clean pieces the path components are those of the root, site folder, present target folder, present relative path and file name, in order |
| `Paths.DestPathCleanForm` | notebook/sharepoint-to-onelake-recursive-copy.py:254-263 | five clean segments give exactly root/site/target/rel/filename |
| `Paths.DestPathParent` | notebook/sharepoint-to-onelake-recursive-copy.py:254-269 | for a slash-free file name, the parent that `ensure_parent_dirs` computes, then "/", then the name, is the destination path |
| `Tree.CollectPagesCount` | notebook/sharepoint-to-onelake-recursive-copy.py:213-236 | exactly one entry per file node of the subtree, none for folders or other items |
| `Tree.CollectItemsAppend` | notebook/sharepoint-to-onelake-recursive-copy.py:221-235 | a listing's entries are the entries of its parts, in listing order |
| `Tree.CollectPagesFlatten` | notebook/sharepoint-to-onelake-recursive-copy.py:221-222 | every page is consumed, in chain order, as if all children were one listing |
| `Tree.CollectItemsSplice` | notebook/sharepoint-to-onelake-recursive-copy.py:224-228 | a subfolder's files are spliced in at the subfolder's listing position (depth first) |
| `Tree.ExtendJoins` | notebook/sharepoint-to-onelake-recursive-copy.py:227 | below a non-empty base, descending appends the folder names joined by "/" |
| `Tree.ExtendFromRoot` | notebook/sharepoint-to-onelake-recursive-copy.py:223-233 | from the traversal root, when the top-level folder on the way has a name, a file's relative path is the "/"-join of the folder names leading to it, and "" at top level |
| `Tree.CollectPagesSound` | notebook/sharepoint-to-onelake-recursive-copy.py:213-236 | every entry is the record of a file of the subtree, under the path of the folders leading to it |
| `Tree.CollectPagesComplete` | notebook/sharepoint-to-onelake-recursive-copy.py:213-236 | every file of the subtree has its entry, under the path of the folders leading to it |
| `Paging.ChainYieldsEveryPage` | notebook/sharepoint-to-onelake-recursive-copy.py:204-211 | a complete next-link chain yields one page per reply, in order, and replies after the last page have no influence |
| `Paging.SuccessReadsAChain` | notebook/sharepoint-to-onelake-recursive-copy.py:204-211 | a successful walk read a complete chain of the first replies and yielded exactly its pages |
| `Paging.ErrorStopsTheWalk` | notebook/sharepoint-to-onelake-recursive-copy.py:206-208 | the first error status on the chain ends the walk with that status |
| `Drives.FirstWanted` | notebook/sharepoint-to-onelake-recursive-copy.py:168-178 | the position found is a wanted drive and no earlier drive is wanted; none is found only when no drive is wanted |
| `Drives.Selection` | notebook/sharepoint-to-onelake-recursive-copy.py:166-181 | a selected id is non-empty and is the id of a document library of the listing |
| `Drives.Fallback` | notebook/sharepoint-to-onelake-recursive-copy.py:173-181 | the fallback pass only ever selects a non-empty id of a document library |
| `Drives.DocumentsPreferred` | notebook/sharepoint-to-onelake-recursive-copy.py:168-172 | the first "Documents" library wins whenever its id is non-empty, wherever other libraries stand |
| `Drives.FirstLibraryOtherwise` | notebook/sharepoint-to-onelake-recursive-copy.py:173-178 | without a "Documents" library, the first document library in listing order is chosen when its id is non-empty |
| `Drives.EmptyDocumentsIdFallsBack` | notebook/sharepoint-to-onelake-recursive-copy.py:168-178 | a "Documents" library with an empty id sends the choice to the first library of the listing; when that first library has a non-empty id it is chosen and comes before "Documents" (otherwise the outcome is the one `Drives.FallbackTakesFirstLibrary` gives) |
| `Drives.FallbackTakesFirstLibrary` | notebook/sharepoint-to-onelake-recursive-copy.py:173-181 | the fallback outcome is decided by the first document library alone: its id, `MissingId` without one, `NoDocumentLibrary` for an empty one |
| `Drives.NoLibraryFails` | notebook/sharepoint-to-onelake-recursive-copy.py:180-181 | a listing without any document library fails with `RuntimeError` |
| `Drives.SelectDrive` | notebook/sharepoint-to-onelake-recursive-copy.py:166-181 | the two loops reach exactly the outcome `Selection` reads off the listing: first "Documents" library, else first library, else `NoDocumentLibrary`, with `MissingId` for a chosen drive lacking an id |
| `Grants.ResolveAppName` | notebook/sharepoint-to-onelake-recursive-copy.py:80-107 | a hit returns the cached name and keeps the cache; on a miss the service principal, then the app registration, then the default decides; the cache then maps the id to the name |
| `Grants.ResolvedNameOrigin` | notebook/sharepoint-to-onelake-recursive-copy.py:84-107 | a freshly resolved name is the default or a non-empty first display name from a lookup |
| `Grants.ResolveTwice` | notebook/sharepoint-to-onelake-recursive-copy.py:80-82 | a second call returns the same name with the same cache, whatever the lookups |
| `Grants.ResolveKeepsOtherNames` | notebook/sharepoint-to-onelake-recursive-copy.py:92-106 | names cached for other applications are untouched |
| `Grants.NamesApp` | notebook/sharepoint-to-onelake-recursive-copy.py:124-128 | some identity of the permission carries the client id |
| `Grants.AlreadyGranted` | notebook/sharepoint-to-onelake-recursive-copy.py:122-130 | the nested scan reports a grant exactly when some identity of some permission has the client id, and agrees with `Granted`, which the grant decision uses |
| `Grants.Granted` | notebook/sharepoint-to-onelake-recursive-copy.py:122-130 | the same condition, as used by the decision |
| `Grants.EnsureWriteGrant` | notebook/sharepoint-to-onelake-recursive-copy.py:110-144 | a listing error fails; an existing grant creates nothing; otherwise a "write" grant for the client id and resolved name is created, and a non-201 answer fails |
| `Grants.EnsureWriteGrantIdempotent` | notebook/sharepoint-to-onelake-recursive-copy.py:122-144 | after a grant is created and listed, a second run whose listing request does not fail creates nothing and keeps the cache |
| `Grants.RolesAreIgnored` | notebook/sharepoint-to-onelake-recursive-copy.py:122-131 | the decision does not depend on the roles of the listed permissions |
| `Grants.GrantTargets` | notebook/sharepoint-to-onelake-recursive-copy.py:147-152 | the target is always granted; the caller is granted as well exactly when the flag is set and its id differs; no application is granted twice |
| `Copy.Copied` | notebook/sharepoint-to-onelake-recursive-copy.py:277-300 | every copied entry has a non-empty URL, and there are at most as many as entries |
| `Copy.CopiedMembers` | notebook/sharepoint-to-onelake-recursive-copy.py:277-290 | an entry is copied exactly when it has a URL and the download request made for it at some position of the list answers 200 |
| `Copy.RequestsAnsweredSeparately` | notebook/sharepoint-to-onelake-recursive-copy.py:286-289 | each entry gets its own request: the same entry listed twice is copied once when only one of its two downloads answers 200 |
| `Copy.CopiedAppend` | notebook/sharepoint-to-onelake-recursive-copy.py:277-300 | entries are decided one after the other, in list order |
| `Copy.SkippedEntryChangesNothing` | notebook/sharepoint-to-onelake-recursive-copy.py:278-289 | a skipped entry does not stop the loop: the others are copied as if it were absent |
| `Copy.DestPathsAt` | notebook/sharepoint-to-onelake-recursive-copy.py:291 | the k-th destination is the mirrored path of the k-th entry |
| `Copy.DestPathsLength` | notebook/sharepoint-to-onelake-recursive-copy.py:276-302 | there is one destination per entry |
| `Copy.DestPathsAppend` | notebook/sharepoint-to-onelake-recursive-copy.py:276-302 | destinations of a concatenation are those of each part, in order |
| `Copy.CopyAll` | notebook/sharepoint-to-onelake-recursive-copy.py:276-302 | `copied` counts the copyable entries and the written paths are their destinations, in entry order |
| `Copy.WrittenUnderParent` | notebook/sharepoint-to-onelake-recursive-copy.py:292-293 | each written path whose file name has no "/" is its parent directory, then "/", then the file name |

## Left out

- Token acquisition with MSAL, the site lookup and every HTTP request (lines 33-66 and the
  `requests` calls). Their answers are inputs: drive listings, permission listings, lookup
  results, reply chains and download statuses.
- `mssparkutils.fs.exists`, `mkdirs` and `put`, and `put_base64` (lines 265-274). These are
  side effects on the lakehouse. Only the parent path and the destination path are modelled.
  Nothing decodes the base64 text, so no round trip is claimed.
- `urllib.parse.quote` and the target-folder probe (lines 186-197). The traversal starts
  from the probed folder's listing.
- Progress printing and log paths (lines 238-243, 283, 296), the `%pip` cell and the
  parameter cell.
- The `raise_for_status` checks on the site lookup (line 64) and on the drive listing
  (line 163). Drive selection starts from a successful listing.
- Fetching a subfolder's pages inside the traversal. In the model a folder's pages are the
  already fetched result of its next-link chain. An error page aborts the whole run, and
  `Paging` models that for one folder.
- A next-link chain that never ends (a link that cycles) would loop forever in the script.
  The model reads a finite list of replies and reports `RepliesExhausted` when they run out.
- Items with unusual shapes. An item carrying both a `folder` and a `file` facet is a folder,
  because the script tests `folder` first. A folder or file without an `id` raises `KeyError`
  in the script and cannot be represented in the model.
- `Copy.CopyAll`: a download request that raises (for instance a connection error) ends the
  script; the model only has the status of each download request, paired with its entry
  (`Copy.Download`).
- `Grants.EnsureWriteGrant`: the create request sends `grantedToIdentities`, while the scan
  reads `grantedToIdentitiesV2`. `Grants.Honoured` assumes the site lists the new grant under
  the latter.
- `Grants.ResolveAppName`: a JSON decoding error is treated like a raised request (`Raised`).
  A service-principal answer of 200 with a non-empty `value` settles the name, even when its first
  element has no display name. The application lookup is then not tried.
