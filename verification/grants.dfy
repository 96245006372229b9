/**
  The Sites.Selected grant step: the display-name cache of `resolve_app_name`, the scan of
  the site's permissions for an existing grant, the decision to create one, and the choice
  of which applications get a grant.
*/
module Grants {
  import opened Wrappers
  import opened Http

  // ---------------------------------------------------------------------------
  // resolve_app_name
  // ---------------------------------------------------------------------------

  /**
    What one directory lookup gave: the request or its JSON decoding raised, or an answer
    with a status code and the `displayName` of each element of `value` (`None` when absent).
  */
  datatype Lookup =
    | Raised
    | Answered(status: int, displayNames: seq<Option<string>>)

  /** `x or default`: an absent or empty display name falls back to the default. */
  function NameOr(displayName: Option<string>, default: string): string {
    if displayName.Some? && displayName.value != "" then displayName.value else default
  }

  /** A lookup that settles the name: status 200 with at least one element. */
  predicate Decides(l: Lookup) {
    l.Answered? && l.status == 200 && |l.displayNames| > 0
  }

  /**
    The name for `appId` and the cache afterwards. On a hit the cached name is returned.
    Otherwise the service-principal lookup is tried, then the app-registration lookup,
    each looking at its first element only; a lookup that raises ends the search.
  */
  function ResolveAppName(cache: map<string, string>, appId: string, default: string,
                          servicePrincipal: Lookup, application: Lookup): (res: (string, map<string, string>))
    ensures appId in cache ==> res == (cache[appId], cache)
    ensures res.1 == cache[appId := res.0]
    ensures appId !in cache && Decides(servicePrincipal)
            ==> res.0 == NameOr(servicePrincipal.displayNames[0], default)
    ensures appId !in cache && servicePrincipal.Answered? && !Decides(servicePrincipal) && Decides(application)
            ==> res.0 == NameOr(application.displayNames[0], default)
    ensures appId !in cache && (servicePrincipal.Raised? || (!Decides(servicePrincipal) && !Decides(application)))
            ==> res.0 == default
  {
    if appId in cache then (cache[appId], cache)
    else
      var name :=
        if servicePrincipal.Raised? then default
        else if Decides(servicePrincipal) then NameOr(servicePrincipal.displayNames[0], default)
        else if Decides(application) then NameOr(application.displayNames[0], default)
        else default;
      (name, cache[appId := name])
  }

  /**
    A resolved name is the caller's default or a non-empty display name one of the lookups
    returned first, unless it was already cached.
  */
  lemma ResolvedNameOrigin(cache: map<string, string>, appId: string, default: string,
                           servicePrincipal: Lookup, application: Lookup)
    requires appId !in cache
    ensures var name := ResolveAppName(cache, appId, default, servicePrincipal, application).0;
      name == default
      || (Decides(servicePrincipal) && servicePrincipal.displayNames[0] == Some(name) && name != "")
      || (Decides(application) && application.displayNames[0] == Some(name) && name != "")
  {
  }

  /**
    The cache makes the name stable: a second call, with whatever lookups, returns the same
    name and leaves the cache as the first call left it.
  */
  lemma ResolveTwice(cache: map<string, string>, appId: string, default: string,
                     sp1: Lookup, app1: Lookup, default2: string, sp2: Lookup, app2: Lookup)
    ensures var (name, cache1) := ResolveAppName(cache, appId, default, sp1, app1);
      ResolveAppName(cache1, appId, default2, sp2, app2) == (name, cache1)
  {
  }

  /** Resolving one application leaves the names cached for all others as they were. */
  lemma ResolveKeepsOtherNames(cache: map<string, string>, appId: string, default: string,
                               servicePrincipal: Lookup, application: Lookup, other: string)
    requires other != appId
    ensures var cache1 := ResolveAppName(cache, appId, default, servicePrincipal, application).1;
      (other in cache1 <==> other in cache) && (other in cache ==> cache1[other] == cache[other])
  {
  }

  // ---------------------------------------------------------------------------
  // The scan for an existing grant
  // ---------------------------------------------------------------------------

  /**
    One `grantedToIdentitiesV2` element: the `application.id` and `application.displayName`,
    `None` when the application object or the field is absent or null.
  */
  datatype Identity = Identity(appId: Option<string>, displayName: Option<string>)

  /** One site permission: its roles and its `grantedToIdentitiesV2` list. */
  datatype Permission = Permission(roles: seq<string>, identities: seq<Identity>)

  /** Whether some identity of one permission is the application `clientId`. */
  function NamesApp(identities: seq<Identity>, clientId: string): (found: bool)
    ensures found <==> exists j :: 0 <= j < |identities| && identities[j].appId == Some(clientId)
    decreases |identities|
  {
    if |identities| == 0 then false
    else identities[0].appId == Some(clientId) || NamesApp(identities[1..], clientId)
  }

  /**
    The nested scan of the listing: `already` is set when any identity of any permission is
    the application, whatever roles that permission carries.
  */
  method AlreadyGranted(permissions: seq<Permission>, clientId: string) returns (already: bool)
    ensures already == Granted(permissions, clientId)
    ensures already <==> exists i, j :: 0 <= i < |permissions| && 0 <= j < |permissions[i].identities|
                                       && permissions[i].identities[j].appId == Some(clientId)
  {
    already := false;
    var i := 0;
    while i < |permissions|
      invariant 0 <= i <= |permissions|
      invariant already <==> exists p, j :: 0 <= p < i && 0 <= j < |permissions[p].identities|
                                             && permissions[p].identities[j].appId == Some(clientId)
    {
      var identities := permissions[i].identities;
      var j := 0;
      while j < |identities|
        invariant 0 <= j <= |identities|
        invariant already <==> (exists p, q :: 0 <= p < i && 0 <= q < |permissions[p].identities|
                                               && permissions[p].identities[q].appId == Some(clientId))
                               || (exists q :: 0 <= q < j && identities[q].appId == Some(clientId))
      {
        if identities[j].appId == Some(clientId) {
          already := true;
        }
        j := j + 1;
      }
      i := i + 1;
    }
  }

  /** The same scan as a function, used by the decision below. */
  function Granted(permissions: seq<Permission>, clientId: string): (found: bool)
    ensures found <==> exists i, j :: 0 <= i < |permissions| && 0 <= j < |permissions[i].identities|
                                     && permissions[i].identities[j].appId == Some(clientId)
    decreases |permissions|
  {
    if |permissions| == 0 then false
    else
      var here := NamesApp(permissions[0].identities, clientId);
      var rest := Granted(permissions[1..], clientId);
      assert rest ==> exists i, j :: 1 <= i < |permissions| && 0 <= j < |permissions[i].identities|
                                     && permissions[i].identities[j].appId == Some(clientId) by {
        if rest {
          var i, j :| 0 <= i < |permissions[1..]| && 0 <= j < |permissions[1..][i].identities|
                      && permissions[1..][i].identities[j].appId == Some(clientId);
          assert permissions[i + 1] == permissions[1..][i];
        }
      }
      here || rest
  }

  // ---------------------------------------------------------------------------
  // ensure_app_write_grant
  // ---------------------------------------------------------------------------

  /** The site permission listing: its status code and, when it succeeded, its permissions. */
  datatype Listing = Listing(status: int, permissions: seq<Permission>)

  /** The body posted to create a grant: roles and one application identity. */
  datatype GrantRequest = GrantRequest(roles: seq<string>, appId: string, displayName: string)

  datatype GrantOutcome = AlreadyPresent | Created(request: GrantRequest)

  datatype GrantError =
    /** `raise_for_status` on the permission listing raised. */
    | ListingFailed(status: int)
    /** The create call answered something other than 201 Created. */
    | CreateFailed(status: int)

  /**
    Makes sure `clientId` holds a "write" grant on the site. The name is resolved first (and
    cached even when a later step fails); a grant is created only when no identity in the
    listing is the application; a create answered by anything but 201 fails.
  */
  function EnsureWriteGrant(cache: map<string, string>, clientId: string, displayHint: string,
                            servicePrincipal: Lookup, application: Lookup,
                            listing: Listing, createStatus: int)
    : (res: (map<string, string>, Result<GrantOutcome, GrantError>))
    ensures res.0 == ResolveAppName(cache, clientId, displayHint, servicePrincipal, application).1
    ensures RaisesForStatus(listing.status) <==> res.1 == Failure(ListingFailed(listing.status))
    ensures res.1 == Success(AlreadyPresent)
            <==> !RaisesForStatus(listing.status) && Granted(listing.permissions, clientId)
    ensures res.1.Success? && res.1.value.Created?
            <==> !RaisesForStatus(listing.status) && !Granted(listing.permissions, clientId) && createStatus == 201
    ensures res.1 == Failure(CreateFailed(createStatus))
            <==> !RaisesForStatus(listing.status) && !Granted(listing.permissions, clientId) && createStatus != 201
    ensures res.1.Success? && res.1.value.Created? ==>
      res.1.value.request == GrantRequest(["write"], clientId, res.0[clientId])
  {
    var (name, cache1) := ResolveAppName(cache, clientId, displayHint, servicePrincipal, application);
    if RaisesForStatus(listing.status) then (cache1, Failure(ListingFailed(listing.status)))
    else if Granted(listing.permissions, clientId) then (cache1, Success(AlreadyPresent))
    else if createStatus != 201 then (cache1, Failure(CreateFailed(createStatus)))
    else (cache1, Success(Created(GrantRequest(["write"], clientId, name))))
  }

  /** The permission the site lists once a grant request has been honoured. */
  function Honoured(request: GrantRequest): Permission {
    Permission(request.roles, [Identity(Some(request.appId), Some(request.displayName))])
  }

  /**
    Idempotence: once a created grant shows up in the listing, running the step again
    creates nothing, whatever the lookups and create status would be, and the name cache
    stays as it was.
  */
  lemma EnsureWriteGrantIdempotent(cache: map<string, string>, clientId: string, displayHint: string,
                                   sp1: Lookup, app1: Lookup, listing: Listing, createStatus: int,
                                   sp2: Lookup, app2: Lookup, status2: int, createStatus2: int)
    requires EnsureWriteGrant(cache, clientId, displayHint, sp1, app1, listing, createStatus).1.Success?
    requires !RaisesForStatus(status2)
    ensures var (cache1, r1) := EnsureWriteGrant(cache, clientId, displayHint, sp1, app1, listing, createStatus);
      var after := if r1.value.Created? then listing.permissions + [Honoured(r1.value.request)]
                   else listing.permissions;
      EnsureWriteGrant(cache1, clientId, displayHint, sp2, app2, Listing(status2, after), createStatus2)
        == (cache1, Success(AlreadyPresent))
  {
    var (cache1, r1) := EnsureWriteGrant(cache, clientId, displayHint, sp1, app1, listing, createStatus);
    if r1.value.Created? {
      var after := listing.permissions + [Honoured(r1.value.request)];
      var i := |listing.permissions|;
      assert after[i].identities[0].appId == Some(clientId);
    }
  }

  /** Roles are never read: two listings that differ only in roles lead to the same outcome. */
  lemma RolesAreIgnored(cache: map<string, string>, clientId: string, displayHint: string,
                        servicePrincipal: Lookup, application: Lookup, status: int,
                        permissions: seq<Permission>, roles: seq<seq<string>>, createStatus: int)
    requires |roles| == |permissions|
    ensures var relabelled := seq(|permissions|, k requires 0 <= k < |permissions| =>
                                    Permission(roles[k], permissions[k].identities));
      EnsureWriteGrant(cache, clientId, displayHint, servicePrincipal, application,
                       Listing(status, relabelled), createStatus)
      == EnsureWriteGrant(cache, clientId, displayHint, servicePrincipal, application,
                          Listing(status, permissions), createStatus)
  {
    var relabelled := seq(|permissions|, k requires 0 <= k < |permissions| =>
                            Permission(roles[k], permissions[k].identities));
    assert Granted(relabelled, clientId) == Granted(permissions, clientId) by {
      if Granted(permissions, clientId) {
        var i, j :| 0 <= i < |permissions| && 0 <= j < |permissions[i].identities|
                    && permissions[i].identities[j].appId == Some(clientId);
        assert relabelled[i].identities[j].appId == Some(clientId);
      }
      if Granted(relabelled, clientId) {
        var i, j :| 0 <= i < |relabelled| && 0 <= j < |relabelled[i].identities|
                    && relabelled[i].identities[j].appId == Some(clientId);
        assert permissions[i].identities[j].appId == Some(clientId);
      }
    }
  }

  // ---------------------------------------------------------------------------
  // Which applications get a grant
  // ---------------------------------------------------------------------------

  /** The display name the script passes for the calling application. */
  const CallerDisplayHint := "Notebook-Caller-App"

  /**
    The (client id, display hint) pairs granted in order: the target application always,
    then the calling application when the flag is set and it is a different application.
  */
  function GrantTargets(targetId: string, targetDisplay: string, callerId: string,
                        grantCallerToo: bool): (targets: seq<(string, string)>)
    ensures 1 <= |targets| <= 2 && targets[0] == (targetId, targetDisplay)
    ensures |targets| == 2 <==> grantCallerToo && callerId != targetId
    ensures |targets| == 2 ==> targets[1] == (callerId, CallerDisplayHint)
    ensures (exists k :: 0 <= k < |targets| && targets[k].0 == callerId) <==> grantCallerToo || callerId == targetId
    ensures forall j, k :: 0 <= j < k < |targets| ==> targets[j].0 != targets[k].0
  {
    var extra := if grantCallerToo && callerId != targetId then [(callerId, CallerDisplayHint)] else [];
    var targets := [(targetId, targetDisplay)] + extra;
    assert targets[0].0 == targetId;
    assert |extra| == 1 ==> targets[1].0 == callerId;
    targets
  }
}
