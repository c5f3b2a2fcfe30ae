/**
  The membership half of the main driver in main.py: for every stored entry of
  the OU-to-space map that has both a path and a space name, read the OU's and
  the space's members and send the requests that bring them in line.
 */
module Driver {
  import opened Records
  import opened Membership
  import opened Sync

  /** What the services answer for one entry: role items, directory user pages, chat membership pages. */
  datatype Listing = Listing(roles: seq<RoleAssignment>, userPages: seq<seq<DirUser>>, memberPages: seq<seq<SpaceMembership>>)

  /** The driver skips an entry whose path or space name is empty. */
  predicate Syncable(e: Entry) {
    e.orgUnitPath != [] && e.name != []
  }

  /** The requests one entry leads to, given what the services answer for it. */
  function EntryRequests(cfg: Config, e: Entry, l: Listing): seq<Request> {
    var ouIds := SelectUsers(cfg, e.orgUnitPath, TraversalHolders(cfg.treeTraversalRoleId, l.roles), Flatten(l.userPages));
    var spaceIds := LiveMemberIds(FirstPage(l.memberPages));
    SyncRequests(ouIds, spaceIds, e.name, cfg.adminUserId)
  }

  /** The requests of the whole loop over the stored entries, in order. */
  function AllRequests(cfg: Config, items: seq<Entry>, fetch: Entry -> Listing): seq<Request>
    decreases |items|
  {
    if |items| == 0 then []
    else
      var n := |items| - 1;
      AllRequests(cfg, items[..n], fetch)
        + (if Syncable(items[n]) then EntryRequests(cfg, items[n], fetch(items[n])) else [])
  }

  /** The loop of the main driver over the reloaded map's entries. */
  method SyncAll(cfg: Config, items: seq<Entry>, fetch: Entry -> Listing) returns (reqs: seq<Request>)
    ensures reqs == AllRequests(cfg, items, fetch)
  {
    reqs := [];
    for i := 0 to |items|
      invariant reqs == AllRequests(cfg, items[..i], fetch)
    {
      assert items[..i + 1][..i] == items[..i];
      var e := items[i];
      if !Syncable(e) {
        continue;
      }
      var l := fetch(e);
      var ouMembers, spaceMembers := RequestOuSpaceMembers(cfg, e.orgUnitPath, l.roles, l.userPages, l.memberPages);
      var r := SyncMembership(cfg, ouMembers, spaceMembers, e.name);
      reqs := reqs + r;
    }
    assert items[..|items|] == items;
  }

  /**
    Every request of the loop adds or removes a member, and names the space of
    an entry the driver did not skip.
   */
  lemma {:induction false} AllRequestsTargets(cfg: Config, items: seq<Entry>, fetch: Entry -> Listing, k: nat)
    requires k < |AllRequests(cfg, items, fetch)|
    ensures AllRequests(cfg, items, fetch)[k].AddMembership? || AllRequests(cfg, items, fetch)[k].RemoveMembership?
    ensures exists i :: 0 <= i < |items| && Syncable(items[i])
                        && AllRequests(cfg, items, fetch)[k].spaceName == items[i].name
    decreases |items|
  {
    var n := |items| - 1;
    var front := AllRequests(cfg, items[..n], fetch);
    var all := AllRequests(cfg, items, fetch);
    if k < |front| {
      AllRequestsTargets(cfg, items[..n], fetch, k);
      assert all[k] == front[k];
      var i :| 0 <= i < n && Syncable(items[..n][i]) && front[k].spaceName == items[..n][i].name;
      assert items[..n][i] == items[i];
    } else {
      var e := items[n];
      assert Syncable(e);
      var l := fetch(e);
      var ouIds := SelectUsers(cfg, e.orgUnitPath, TraversalHolders(cfg.treeTraversalRoleId, l.roles), Flatten(l.userPages));
      var spaceIds := LiveMemberIds(FirstPage(l.memberPages));
      SyncOrder(ouIds, spaceIds, e.name, cfg.adminUserId);
      assert all[k] == EntryRequests(cfg, e, l)[k - |front|];
    }
  }
}
