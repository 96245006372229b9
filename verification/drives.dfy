/**
  Choosing the document library to read from: the first library named "Documents" is
  preferred, otherwise the first document library of the listing is used.
*/
module Drives {
  import opened Wrappers

  /** One element of the site's drive listing; absent JSON fields are `None`. */
  datatype Drive = Drive(id: Option<string>, name: Option<string>, driveType: Option<string>)

  datatype DriveError =
    /** No usable document library: the script raises `RuntimeError`. */
    | NoDocumentLibrary
    /** The chosen drive has no `id` field: `d["id"]` raises `KeyError`. */
    | MissingId

  predicate IsLibrary(d: Drive) {
    d.driveType == Some("documentLibrary")
  }

  /** The preferred drive: a document library called "Documents". */
  predicate IsDocuments(d: Drive) {
    IsLibrary(d) && d.name == Some("Documents")
  }

  /** A drive acceptable in the pass: the preferred one, or any library in the fallback. */
  predicate Wanted(d: Drive, documentsOnly: bool) {
    if documentsOnly then IsDocuments(d) else IsLibrary(d)
  }

  /** Position of the first wanted drive in listing order, if any. */
  function FirstWanted(drives: seq<Drive>, documentsOnly: bool): (r: Option<nat>)
    ensures r.Some? ==> r.value < |drives| && Wanted(drives[r.value], documentsOnly)
    ensures r.Some? ==> forall k :: 0 <= k < r.value ==> !Wanted(drives[k], documentsOnly)
    ensures r.None? <==> forall k :: 0 <= k < |drives| ==> !Wanted(drives[k], documentsOnly)
    decreases |drives|
  {
    if |drives| == 0 then None
    else if Wanted(drives[0], documentsOnly) then Some(0)
    else
      match FirstWanted(drives[1..], documentsOnly)
      case None => None
      case Some(i) => Some(i + 1)
  }

  /** Python truthiness of the drive id read so far: `None` and "" count as not found. */
  predicate Found(id: Option<string>) {
    id.Some? && id.value != ""
  }

  /**
    The outcome the script reaches, read off the listing: the first "Documents" library if its
    id is non-empty, otherwise the first library of any name; a chosen drive without an id
    raises, and an empty id in the fallback counts as no library.
  */
  function Selection(drives: seq<Drive>): (r: Result<string, DriveError>)
    ensures r.Success? ==> r.value != ""
    ensures r.Success? ==> exists k :: 0 <= k < |drives| && IsLibrary(drives[k]) && drives[k].id == Some(r.value)
  {
    match FirstWanted(drives, true)
    case Some(i) =>
      if drives[i].id.None? then Failure(MissingId)
      else if drives[i].id.value != "" then Success(drives[i].id.value)
      else Fallback(drives)
    case None => Fallback(drives)
  }

  /** The second pass: the first library of any name. */
  function Fallback(drives: seq<Drive>): (r: Result<string, DriveError>)
    ensures r.Success? ==> r.value != ""
    ensures r.Success? ==> exists k :: 0 <= k < |drives| && IsLibrary(drives[k]) && drives[k].id == Some(r.value)
  {
    match FirstWanted(drives, false)
    case None => Failure(NoDocumentLibrary)
    case Some(j) =>
      if drives[j].id.None? then Failure(MissingId)
      else if drives[j].id.value == "" then Failure(NoDocumentLibrary)
      else Success(drives[j].id.value)
  }

  /**
    The first "Documents" library wins whenever its id is non-empty, wherever other libraries
    stand in the listing.
  */
  lemma DocumentsPreferred(drives: seq<Drive>, k: nat)
    requires k < |drives| && IsDocuments(drives[k]) && Found(drives[k].id)
    requires forall j :: 0 <= j < k ==> !IsDocuments(drives[j])
    ensures Selection(drives) == Success(drives[k].id.value)
  {
  }

  /**
    Without any "Documents" library, the first document library of the listing is chosen
    when its id is non-empty.
  */
  lemma FirstLibraryOtherwise(drives: seq<Drive>, k: nat)
    requires forall j :: 0 <= j < |drives| ==> !IsDocuments(drives[j])
    requires k < |drives| && IsLibrary(drives[k]) && Found(drives[k].id)
    requires forall j :: 0 <= j < k ==> !IsLibrary(drives[j])
    ensures Selection(drives) == Success(drives[k].id.value)
  {
  }

  /**
    When the first "Documents" library has an empty id the fallback pass runs over the whole
    listing. A library with a usable id can then only be found before "Documents", and the
    first library of any name is chosen.
  */
  lemma EmptyDocumentsIdFallsBack(drives: seq<Drive>, i: nat, k: nat)
    requires i < |drives| && IsDocuments(drives[i]) && drives[i].id == Some("")
    requires forall j :: 0 <= j < i ==> !IsDocuments(drives[j])
    requires k < |drives| && IsLibrary(drives[k]) && Found(drives[k].id)
    requires forall j :: 0 <= j < k ==> !IsLibrary(drives[j])
    ensures k < i
    ensures Selection(drives) == Success(drives[k].id.value)
  {
  }

  /**
    The fallback pass in full: it is decided by the first document library of the listing
    alone, whatever follows it.
  */
  lemma FallbackTakesFirstLibrary(drives: seq<Drive>, k: nat)
    requires k < |drives| && IsLibrary(drives[k])
    requires forall j :: 0 <= j < k ==> !IsLibrary(drives[j])
    ensures Fallback(drives) ==
      if drives[k].id.None? then Failure(MissingId)
      else if drives[k].id.value == "" then Failure(NoDocumentLibrary)
      else Success(drives[k].id.value)
  {
  }

  /** A listing without any document library always fails with `RuntimeError`. */
  lemma NoLibraryFails(drives: seq<Drive>)
    requires forall k :: 0 <= k < |drives| ==> !IsLibrary(drives[k])
    ensures Selection(drives) == Failure(NoDocumentLibrary)
  {
  }

  /**
    The two passes over the listing. The first pass stops at the first "Documents" library;
    if that gave no usable id the second pass takes the first library of any name.
  */
  method SelectDrive(drives: seq<Drive>) returns (r: Result<string, DriveError>)
    ensures r == Selection(drives)
  {
    var chosen: Option<string> := None;
    var n := 0;
    while n < |drives|
      invariant 0 <= n <= |drives|
      invariant forall k :: 0 <= k < n ==> !IsDocuments(drives[k])
    {
      if IsDocuments(drives[n]) {
        if drives[n].id.None? {
          return Failure(MissingId);
        }
        chosen := drives[n].id;
        break;
      }
      n := n + 1;
    }
    if Found(chosen) {
      return Success(chosen.value);
    }
    n := 0;
    while n < |drives|
      invariant 0 <= n <= |drives|
      invariant forall k :: 0 <= k < n ==> !IsLibrary(drives[k])
    {
      if IsLibrary(drives[n]) {
        if drives[n].id.None? {
          return Failure(MissingId);
        }
        chosen := drives[n].id;
        break;
      }
      n := n + 1;
    }
    if Found(chosen) {
      return Success(chosen.value);
    }
    return Failure(NoDocumentLibrary);
  }
}
