/**
  The selection logic of `request_ou_space_members` in main.py, with the
  directory and chat listings taken as already-fetched pages: who holds the
  tree-traversal role, which directory users belong to an OU's space, and which
  users the space already has.
 */
module Membership {
  import opened Wrappers
  import opened Paths
  import opened Records

  /** An item of the directory's role-assignment listing; `roleId` may be absent. */
  datatype RoleAssignment = RoleAssignment(roleId: Option<string>, assignedTo: string)

  /** A user of the directory's user listing; the OU path may be absent. */
  datatype DirUser = DirUser(id: string, orgUnitPath: Option<string>)

  /** A membership of the chat listing (`name` is "spaces/S/members/U"); live when `deletionTime` is absent. */
  datatype SpaceMembership = SpaceMembership(name: string, deletionTime: Option<string>)

  // ---------------------------------------------------------------------------
  // Tree-traversal role holders

  /** The `assignedTo` of every role item whose `roleId` is the tree-traversal role, in order. */
  function TraversalHolders(roleId: string, roles: seq<RoleAssignment>): seq<string>
    decreases |roles|
  {
    if |roles| == 0 then []
    else
      var n := |roles| - 1;
      TraversalHolders(roleId, roles[..n]) + (if roles[n].roleId == Some(roleId) then [roles[n].assignedTo] else [])
  }

  /** A user is in the traversal list exactly when some role item assigns them the tree-traversal role. */
  lemma {:induction false} TraversalHoldersSpec(roleId: string, roles: seq<RoleAssignment>, x: string)
    ensures x in TraversalHolders(roleId, roles)
        <==> exists i :: 0 <= i < |roles| && roles[i].roleId == Some(roleId) && roles[i].assignedTo == x
    decreases |roles|
  {
    if |roles| > 0 {
      var n := |roles| - 1;
      TraversalHoldersSpec(roleId, roles[..n], x);
      if exists i :: 0 <= i < n && roles[..n][i].roleId == Some(roleId) && roles[..n][i].assignedTo == x {
        var i :| 0 <= i < n && roles[..n][i].roleId == Some(roleId) && roles[..n][i].assignedTo == x;
        assert roles[i] == roles[..n][i];
      }
      if exists i :: 0 <= i < |roles| && roles[i].roleId == Some(roleId) && roles[i].assignedTo == x {
        var i :| 0 <= i < |roles| && roles[i].roleId == Some(roleId) && roles[i].assignedTo == x;
        if i < n {
          assert roles[..n][i] == roles[i];
        }
      }
    }
  }

  /** The role loop of `request_ou_space_members` (one response, no paging). */
  method CollectTraversalHolders(cfg: Config, roles: seq<RoleAssignment>) returns (holders: seq<string>)
    ensures holders == TraversalHolders(cfg.treeTraversalRoleId, roles)
  {
    holders := [];
    for i := 0 to |roles|
      invariant holders == TraversalHolders(cfg.treeTraversalRoleId, roles[..i])
    {
      assert roles[..i + 1][..i] == roles[..i];
      if roles[i].roleId == Some(cfg.treeTraversalRoleId) {
        holders := holders + [roles[i].assignedTo];
      }
    }
    assert roles[..|roles|] == roles;
  }

  // ---------------------------------------------------------------------------
  // Directory users that belong to an OU's space

  /**
    The inclusion rule: the user's OU is the target or below it; or the target
    is below the user's OU and the user holds the tree-traversal role; or the
    target is, as a raw string, the configured root path.
   */
  predicate Included(cfg: Config, target: string, traversal: seq<string>, user: DirUser) {
    (IsUnder(user.orgUnitPath, Some(target))
     || (IsUnder(Some(target), user.orgUnitPath) && user.id in traversal))
    || target == cfg.ouRootPath
  }

  /** The inclusion rule for one target, as a test on users. */
  function InclusionRule(cfg: Config, target: string, traversal: seq<string>): DirUser -> bool {
    user => Included(cfg, target, traversal, user)
  }

  /** The ids of the users that pass `keep`, in listing order. */
  function Select(keep: DirUser -> bool, users: seq<DirUser>): seq<string>
    decreases |users|
  {
    if |users| == 0 then []
    else
      var n := |users| - 1;
      Select(keep, users[..n]) + (if keep(users[n]) then [users[n].id] else [])
  }

  lemma {:induction false} SelectSpec(keep: DirUser -> bool, users: seq<DirUser>, x: string)
    ensures x in Select(keep, users) <==> exists i :: 0 <= i < |users| && users[i].id == x && keep(users[i])
    decreases |users|
  {
    if |users| > 0 {
      var n := |users| - 1;
      SelectSpec(keep, users[..n], x);
      if exists i :: 0 <= i < n && users[..n][i].id == x && keep(users[..n][i]) {
        var i :| 0 <= i < n && users[..n][i].id == x && keep(users[..n][i]);
        assert users[i] == users[..n][i];
      }
      if exists i :: 0 <= i < |users| && users[i].id == x && keep(users[i]) {
        var i :| 0 <= i < |users| && users[i].id == x && keep(users[i]);
        if i < n {
          assert users[..n][i] == users[i];
        }
      }
    }
  }

  /** The ids of the included users, in listing order. */
  function SelectUsers(cfg: Config, target: string, traversal: seq<string>, users: seq<DirUser>): seq<string> {
    Select(InclusionRule(cfg, target, traversal), users)
  }

  /** An id is selected exactly when some listed user with that id passes the inclusion rule. */
  lemma SelectUsersSpec(cfg: Config, target: string, traversal: seq<string>, users: seq<DirUser>, x: string)
    ensures x in SelectUsers(cfg, target, traversal, users)
        <==> exists i :: 0 <= i < |users| && users[i].id == x && Included(cfg, target, traversal, users[i])
  {
    SelectSpec(InclusionRule(cfg, target, traversal), users, x);
  }

  lemma {:induction false} SelectAppend(keep: DirUser -> bool, a: seq<DirUser>, b: seq<DirUser>)
    ensures Select(keep, a + b) == Select(keep, a) + Select(keep, b)
    decreases |b|
  {
    if |b| == 0 {
      assert a + b == a;
    } else {
      var n := |b| - 1;
      assert (a + b)[..|a + b| - 1] == a + b[..n];
      SelectAppend(keep, a, b[..n]);
    }
  }

  /** The users of all pages, in order. */
  function Flatten(pages: seq<seq<DirUser>>): seq<DirUser>
    decreases |pages|
  {
    if |pages| == 0 then [] else Flatten(pages[..|pages| - 1]) + pages[|pages| - 1]
  }

  /** The selections made on each page, one after the other. */
  function SelectPerPage(cfg: Config, target: string, traversal: seq<string>, pages: seq<seq<DirUser>>): seq<string>
    decreases |pages|
  {
    if |pages| == 0 then []
    else
      var n := |pages| - 1;
      SelectPerPage(cfg, target, traversal, pages[..n]) + SelectUsers(cfg, target, traversal, pages[n])
  }

  /** Filtering page by page selects the same ids, in the same order, as filtering all users at once. */
  lemma {:induction false} SelectPageByPage(cfg: Config, target: string, traversal: seq<string>, pages: seq<seq<DirUser>>)
    ensures SelectPerPage(cfg, target, traversal, pages) == SelectUsers(cfg, target, traversal, Flatten(pages))
    decreases |pages|
  {
    if |pages| > 0 {
      var n := |pages| - 1;
      SelectPageByPage(cfg, target, traversal, pages[..n]);
      SelectAppend(InclusionRule(cfg, target, traversal), Flatten(pages[..n]), pages[n]);
    }
  }

  /** The user loop of `request_ou_space_members`, over every page the directory returns. */
  method CollectOuMembers(cfg: Config, target: string, traversal: seq<string>, pages: seq<seq<DirUser>>)
    returns (members: seq<string>)
    ensures members == SelectUsers(cfg, target, traversal, Flatten(pages))
  {
    members := [];
    for k := 0 to |pages|
      invariant members == SelectPerPage(cfg, target, traversal, pages[..k])
    {
      var page := pages[k];
      ghost var before := members;
      for j := 0 to |page|
        invariant members == before + SelectUsers(cfg, target, traversal, page[..j])
      {
        assert page[..j + 1][..j] == page[..j];
        var user := page[j];
        if Included(cfg, target, traversal, user) {
          members := members + [user.id];
        }
      }
      assert page[..|page|] == page;
      assert pages[..k + 1][..k] == pages[..k];
    }
    assert pages[..|pages|] == pages;
    SelectPageByPage(cfg, target, traversal, pages);
  }

  /**
    The scenario of an "above" user: someone in /Eng holding the tree-traversal
    role belongs to the /Eng/Backend space, someone in /Eng without it does not.
   */
  lemma TraversalScenario(cfg: Config, traversal: seq<string>)
    requires cfg.ouRootPath != "/Eng/Backend"
    requires "u1" in traversal && "u2" !in traversal
    ensures Included(cfg, "/Eng/Backend", traversal, DirUser("u1", Some("/Eng")))
    ensures !Included(cfg, "/Eng/Backend", traversal, DirUser("u2", Some("/Eng")))
  {
    NormClean("/Eng");
    NormClean("/Eng/Backend");
    assert "/Eng/" <= "/Eng/Backend";
    assert !("/Eng/Backend/" <= "/Eng");
  }

  // ---------------------------------------------------------------------------
  // Users the space already has

  /** `name.split('/')[-1]` */
  function LastSegment(name: string): string {
    var segs := Segments(name);
    segs[|segs| - 1]
  }

  lemma {:induction false} JoinLast(segs: seq<string>)
    requires |segs| >= 2
    ensures Join(segs) == Join(segs[..|segs| - 1]) + "/" + segs[|segs| - 1]
    decreases |segs|
  {
    if |segs| > 2 {
      var n := |segs| - 1;
      JoinLast(segs[1..]);
      assert segs[1..][..|segs[1..]| - 1] == segs[..n][1..];
    } else {
      assert segs[..1] == [segs[0]];
    }
  }

  /**
    The last segment has no '/', ends the name, and is the whole name or
    follows its last '/'.
   */
  lemma LastSegmentSpec(name: string)
    ensures NoSlash(LastSegment(name))
    ensures |LastSegment(name)| <= |name|
    ensures name[|name| - |LastSegment(name)|..] == LastSegment(name)
    ensures |LastSegment(name)| < |name| ==> name[|name| - |LastSegment(name)| - 1] == '/'
  {
    var segs := Segments(name);
    var r := segs[|segs| - 1];
    SegmentsHaveNoSlash(name);
    JoinSegments(name);
    if |segs| >= 2 {
      JoinLast(segs);
      var front := Join(segs[..|segs| - 1]);
      assert name == front + "/" + r;
      assert name[|name| - |r|..] == r;
      assert name[|name| - |r| - 1] == '/';
    }
  }

  /** The ids of the live memberships of one page, in order. */
  function LiveMemberIds(page: seq<SpaceMembership>): seq<string>
    decreases |page|
  {
    if |page| == 0 then []
    else
      var n := |page| - 1;
      LiveMemberIds(page[..n]) + (if page[n].deletionTime.None? then [LastSegment(page[n].name)] else [])
  }

  /** An id is listed exactly when some live membership's name ends in it. */
  lemma {:induction false} LiveMemberIdsSpec(page: seq<SpaceMembership>, x: string)
    ensures x in LiveMemberIds(page)
        <==> exists i :: 0 <= i < |page| && page[i].deletionTime.None? && LastSegment(page[i].name) == x
    decreases |page|
  {
    if |page| > 0 {
      var n := |page| - 1;
      LiveMemberIdsSpec(page[..n], x);
      if exists i :: 0 <= i < n && page[..n][i].deletionTime.None? && LastSegment(page[..n][i].name) == x {
        var i :| 0 <= i < n && page[..n][i].deletionTime.None? && LastSegment(page[..n][i].name) == x;
        assert page[i] == page[..n][i];
      }
      if exists i :: 0 <= i < |page| && page[i].deletionTime.None? && LastSegment(page[i].name) == x {
        var i :| 0 <= i < |page| && page[i].deletionTime.None? && LastSegment(page[i].name) == x;
        if i < n {
          assert page[..n][i] == page[i];
        }
      }
    }
  }

  /** The first page of a listing: the only one the chat loop reads. */
  function FirstPage(pages: seq<seq<SpaceMembership>>): seq<SpaceMembership> {
    if |pages| == 0 then [] else pages[0]
  }

  /**
    The membership loop of `request_ou_space_members`. Its page token is never
    reassigned, so the test that ends the loop always succeeds after the first
    page: the loop runs its body at most once, which is this `if`.
   */
  method CollectSpaceMembers(pages: seq<seq<SpaceMembership>>) returns (members: seq<string>)
    ensures members == LiveMemberIds(FirstPage(pages))
  {
    members := [];
    if |pages| > 0 {
      var page := pages[0];
      for j := 0 to |page|
        invariant members == LiveMemberIds(page[..j])
      {
        assert page[..j + 1][..j] == page[..j];
        if page[j].deletionTime.None? {
          members := members + [LastSegment(page[j].name)];
        }
      }
      assert page[..|page|] == page;
    }
  }

  /** Later pages of the chat listing never reach the result. */
  lemma OnlyFirstPageCounts(first: seq<SpaceMembership>, later: seq<seq<SpaceMembership>>)
    ensures LiveMemberIds(FirstPage([first] + later)) == LiveMemberIds(first)
  {
  }

  /**
    `request_ou_space_members(orgUnitPath, name)` on successful fetches: the
    traversal list from the role items, the selected directory users over all
    pages, and the live members of the first chat page.
   */
  method RequestOuSpaceMembers(cfg: Config, target: string, roles: seq<RoleAssignment>,
                               userPages: seq<seq<DirUser>>, memberPages: seq<seq<SpaceMembership>>)
    returns (ouMembers: seq<string>, spaceMembers: seq<string>)
    ensures ouMembers == SelectUsers(cfg, target, TraversalHolders(cfg.treeTraversalRoleId, roles), Flatten(userPages))
    ensures spaceMembers == LiveMemberIds(FirstPage(memberPages))
  {
    var traversal := CollectTraversalHolders(cfg, roles);
    ouMembers := CollectOuMembers(cfg, target, traversal, userPages);
    spaceMembers := CollectSpaceMembers(memberPages);
  }
}
