/**
  `sync_ou_space_membership` in main.py: the add and remove requests that bring
  a space's members in line with its OU, and what those requests do to the
  space once the chat service has carried them out.
 */
module Sync {
  import opened Records

  /** The members of `xs` that are not in `ys`, in `xs` order and with their repetitions. */
  function Missing(xs: seq<string>, ys: seq<string>): (r: seq<string>)
    ensures |r| <= |xs|
    decreases |xs|
  {
    if |xs| == 0 then []
    else
      var n := |xs| - 1;
      Missing(xs[..n], ys) + (if xs[n] in ys then [] else [xs[n]])
  }

  /** Each id occurs in the result as often as in `xs`, unless `ys` has it. */
  lemma {:induction false} MissingSpec(xs: seq<string>, ys: seq<string>, x: string)
    ensures multiset(Missing(xs, ys))[x] == if x in ys then 0 else multiset(xs)[x]
    decreases |xs|
  {
    if |xs| > 0 {
      var n := |xs| - 1;
      assert xs == xs[..n] + [xs[n]];
      MissingSpec(xs[..n], ys, x);
    }
  }

  /** The space members to remove: not in the OU and not the admin user, in space order. */
  function Removable(space: seq<string>, ou: seq<string>, admin: string): (r: seq<string>)
    ensures |r| <= |space|
    decreases |space|
  {
    if |space| == 0 then []
    else
      var n := |space| - 1;
      Removable(space[..n], ou, admin) + (if space[n] in ou || space[n] == admin then [] else [space[n]])
  }

  /** Each id occurs in the result as often as in the space, unless the OU has it or it is the admin user. */
  lemma {:induction false} RemovableSpec(space: seq<string>, ou: seq<string>, admin: string, x: string)
    ensures multiset(Removable(space, ou, admin))[x] == if x in ou || x == admin then 0 else multiset(space)[x]
    decreases |space|
  {
    if |space| > 0 {
      var n := |space| - 1;
      assert space == space[..n] + [space[n]];
      RemovableSpec(space[..n], ou, admin, x);
    }
  }

  /** One add request per id, in order. */
  function Adds(ids: seq<string>, spaceName: string): (r: seq<Request>)
    ensures |r| == |ids|
    ensures forall i :: 0 <= i < |ids| ==> r[i] == AddMembership(ids[i], spaceName)
  {
    seq(|ids|, i requires 0 <= i < |ids| => AddMembership(ids[i], spaceName))
  }

  /** One remove request per id, in order. */
  function Removes(ids: seq<string>, spaceName: string): (r: seq<Request>)
    ensures |r| == |ids|
    ensures forall i :: 0 <= i < |ids| ==> r[i] == RemoveMembership(ids[i], spaceName)
  {
    seq(|ids|, i requires 0 <= i < |ids| => RemoveMembership(ids[i], spaceName))
  }

  /** The requests `sync_ou_space_membership` sends: all adds, then all removes. */
  function SyncRequests(ouIds: seq<string>, spaceIds: seq<string>, spaceName: string, admin: string): seq<Request> {
    Adds(Missing(ouIds, spaceIds), spaceName) + Removes(Removable(spaceIds, ouIds, admin), spaceName)
  }

  /** The two loops of `sync_ou_space_membership`, collecting the requests instead of sending them. */
  method SyncMembership(cfg: Config, ouIds: seq<string>, spaceIds: seq<string>, spaceName: string)
    returns (reqs: seq<Request>)
    ensures reqs == SyncRequests(ouIds, spaceIds, spaceName, cfg.adminUserId)
  {
    reqs := [];
    for i := 0 to |ouIds|
      invariant reqs == Adds(Missing(ouIds[..i], spaceIds), spaceName)
    {
      assert ouIds[..i + 1][..i] == ouIds[..i];
      if ouIds[i] !in spaceIds {
        reqs := reqs + [AddMembership(ouIds[i], spaceName)];
      }
    }
    assert ouIds[..|ouIds|] == ouIds;
    ghost var adds := reqs;
    for i := 0 to |spaceIds|
      invariant reqs == adds + Removes(Removable(spaceIds[..i], ouIds, cfg.adminUserId), spaceName)
    {
      assert spaceIds[..i + 1][..i] == spaceIds[..i];
      if spaceIds[i] !in ouIds {
        if spaceIds[i] != cfg.adminUserId {
          reqs := reqs + [RemoveMembership(spaceIds[i], spaceName)];
        }
      }
    }
    assert spaceIds[..|spaceIds|] == spaceIds;
  }

  /** Every add comes before every remove, and every request is about the synced space. */
  lemma SyncOrder(ouIds: seq<string>, spaceIds: seq<string>, spaceName: string, admin: string)
    ensures var reqs := SyncRequests(ouIds, spaceIds, spaceName, admin);
      && (forall i, j :: 0 <= i < j < |reqs| && reqs[i].RemoveMembership? ==> reqs[j].RemoveMembership?)
      && (forall i :: 0 <= i < |reqs| ==> (reqs[i].AddMembership? || reqs[i].RemoveMembership?) && reqs[i].spaceName == spaceName)
  {
    var add := Adds(Missing(ouIds, spaceIds), spaceName);
    var reqs := SyncRequests(ouIds, spaceIds, spaceName, admin);
    forall i | 0 <= i < |reqs|
      ensures i < |add| <==> reqs[i].AddMembership?
      ensures reqs[i].AddMembership? || reqs[i].RemoveMembership?
    {
    }
  }

  lemma {:induction false} InAdds(ids: seq<string>, spaceName: string, x: string)
    ensures AddMembership(x, spaceName) in Adds(ids, spaceName) <==> x in ids
  {
    if x in ids {
      var i :| 0 <= i < |ids| && ids[i] == x;
      assert Adds(ids, spaceName)[i] == AddMembership(x, spaceName);
    }
  }

  lemma {:induction false} InRemoves(ids: seq<string>, spaceName: string, x: string)
    ensures RemoveMembership(x, spaceName) in Removes(ids, spaceName) <==> x in ids
  {
    if x in ids {
      var i :| 0 <= i < |ids| && ids[i] == x;
      assert Removes(ids, spaceName)[i] == RemoveMembership(x, spaceName);
    }
  }

  /** The elements of the add list: the OU members the space lacks. */
  lemma InMissing(xs: seq<string>, ys: seq<string>, x: string)
    ensures x in Missing(xs, ys) <==> x in xs && x !in ys
  {
    MissingSpec(xs, ys, x);
    assert x in Missing(xs, ys) <==> multiset(Missing(xs, ys))[x] > 0;
    assert x in xs <==> multiset(xs)[x] > 0;
  }

  /** The elements of the remove list: the space members outside the OU, the admin user excepted. */
  lemma InRemovable(space: seq<string>, ou: seq<string>, admin: string, x: string)
    ensures x in Removable(space, ou, admin) <==> x in space && x !in ou && x != admin
  {
    RemovableSpec(space, ou, admin, x);
    assert x in Removable(space, ou, admin) <==> multiset(Removable(space, ou, admin))[x] > 0;
    assert x in space <==> multiset(space)[x] > 0;
  }

  /** A user is added exactly when the OU has them and the space does not. */
  lemma SyncAddsExactly(ouIds: seq<string>, spaceIds: seq<string>, spaceName: string, admin: string, x: string)
    ensures AddMembership(x, spaceName) in SyncRequests(ouIds, spaceIds, spaceName, admin)
        <==> x in ouIds && x !in spaceIds
  {
    var rem := Removes(Removable(spaceIds, ouIds, admin), spaceName);
    InAdds(Missing(ouIds, spaceIds), spaceName, x);
    InMissing(ouIds, spaceIds, x);
    assert AddMembership(x, spaceName) !in rem;
  }

  /** A user is removed exactly when the space has them, the OU does not, and they are not the admin user. */
  lemma SyncRemovesExactly(ouIds: seq<string>, spaceIds: seq<string>, spaceName: string, admin: string, x: string)
    ensures RemoveMembership(x, spaceName) in SyncRequests(ouIds, spaceIds, spaceName, admin)
        <==> x in spaceIds && x !in ouIds && x != admin
  {
    var add := Adds(Missing(ouIds, spaceIds), spaceName);
    InRemoves(Removable(spaceIds, ouIds, admin), spaceName, x);
    InRemovable(spaceIds, ouIds, admin, x);
    assert RemoveMembership(x, spaceName) !in add;
  }

  /** The set of ids in a list. */
  function Elems(s: seq<string>): set<string> {
    set x | x in s
  }

  /** The members of a space after the chat service carries out `reqs` in order. */
  function Apply(members: set<string>, reqs: seq<Request>): set<string>
    decreases |reqs|
  {
    if |reqs| == 0 then members
    else
      var next := match reqs[0]
        case AddMembership(id, _) => members + {id}
        case RemoveMembership(id, _) => members - {id}
        case _ => members;
      Apply(next, reqs[1..])
  }

  lemma {:induction false} ApplyAppend(members: set<string>, a: seq<Request>, b: seq<Request>)
    ensures Apply(members, a + b) == Apply(Apply(members, a), b)
    decreases |a|
  {
    if |a| == 0 {
      assert a + b == b;
    } else {
      assert (a + b)[1..] == a[1..] + b;
      var next := match a[0]
        case AddMembership(id, _) => members + {id}
        case RemoveMembership(id, _) => members - {id}
        case _ => members;
      ApplyAppend(next, a[1..], b);
    }
  }

  lemma {:induction false} ApplyAdds(members: set<string>, ids: seq<string>, spaceName: string)
    ensures Apply(members, Adds(ids, spaceName)) == members + Elems(ids)
    decreases |ids|
  {
    if |ids| > 0 {
      assert Adds(ids, spaceName)[1..] == Adds(ids[1..], spaceName);
      ApplyAdds(members + {ids[0]}, ids[1..], spaceName);
      assert Elems(ids) == {ids[0]} + Elems(ids[1..]);
    }
  }

  lemma {:induction false} ApplyRemoves(members: set<string>, ids: seq<string>, spaceName: string)
    ensures Apply(members, Removes(ids, spaceName)) == members - Elems(ids)
    decreases |ids|
  {
    if |ids| > 0 {
      assert Removes(ids, spaceName)[1..] == Removes(ids[1..], spaceName);
      ApplyRemoves(members - {ids[0]}, ids[1..], spaceName);
      assert Elems(ids) == {ids[0]} + Elems(ids[1..]);
    }
  }

  /**
    Once the requests are carried out, the space holds exactly the OU's members,
    plus the admin user if the admin was already a member.
   */
  lemma SyncConverges(ouIds: seq<string>, spaceIds: seq<string>, spaceName: string, admin: string)
    ensures Apply(Elems(spaceIds), SyncRequests(ouIds, spaceIds, spaceName, admin))
         == Elems(ouIds) + (Elems(spaceIds) * {admin})
  {
    var add := Missing(ouIds, spaceIds);
    var rem := Removable(spaceIds, ouIds, admin);
    ApplyAppend(Elems(spaceIds), Adds(add, spaceName), Removes(rem, spaceName));
    ApplyAdds(Elems(spaceIds), add, spaceName);
    ApplyRemoves(Elems(spaceIds) + Elems(add), rem, spaceName);
    assert Elems(add) == Elems(ouIds) - Elems(spaceIds) by {
      forall x ensures x in add <==> x in ouIds && x !in spaceIds {
        InMissing(ouIds, spaceIds, x);
      }
    }
    assert Elems(rem) == Elems(spaceIds) - Elems(ouIds) - {admin} by {
      forall x ensures x in rem <==> x in spaceIds && x !in ouIds && x != admin {
        InRemovable(spaceIds, ouIds, admin, x);
      }
    }
  }

  /** Syncing a space that already matches its OU sends nothing. */
  lemma SyncQuietWhenEqual(ouIds: seq<string>, spaceIds: seq<string>, spaceName: string, admin: string)
    requires Elems(ouIds) == Elems(spaceIds)
    ensures SyncRequests(ouIds, spaceIds, spaceName, admin) == []
  {
    var add := Missing(ouIds, spaceIds);
    var rem := Removable(spaceIds, ouIds, admin);
    forall x ensures multiset(add)[x] == 0 {
      MissingSpec(ouIds, spaceIds, x);
      if x in ouIds {
        assert x in Elems(spaceIds);
      }
    }
    assert multiset(add) == multiset{};
    forall x ensures multiset(rem)[x] == 0 {
      RemovableSpec(spaceIds, ouIds, admin, x);
      if x in spaceIds {
        assert x in Elems(ouIds);
      }
    }
    assert multiset(rem) == multiset{};
  }

  /** For OU [A,B,C] and space [B,C,D], only "A" is missing. */
  lemma ExampleMissing()
    ensures Missing(["A", "B", "C"], ["B", "C", "D"]) == ["A"]
  {
    var ou := ["A", "B", "C"];
    var space := ["B", "C", "D"];
    assert ou[..2] == ["A", "B"] && ou[..2][..1] == ["A"] && ["A"][..0] == [];
    assert Missing(["A"], space) == ["A"];
    assert Missing(ou[..2], space) == ["A"];
  }

  /** The admin user "D" stays in the space though the OU does not list them. */
  lemma SyncExampleKeepsAdmin()
    ensures SyncRequests(["A", "B", "C"], ["B", "C", "D"], "spaces/S", "D") == [AddMembership("A", "spaces/S")]
  {
    var ou := ["A", "B", "C"];
    var space := ["B", "C", "D"];
    ExampleMissing();
    assert space[..2] == ["B", "C"] && space[..2][..1] == ["B"] && ["B"][..0] == [];
    assert Removable(space[..2], ou, "D") == [];
    assert Removable(space, ou, "D") == [];
  }

  /** The same space with another admin user: "D" is removed after "A" is added. */
  lemma SyncExampleRemovesOthers()
    ensures SyncRequests(["A", "B", "C"], ["B", "C", "D"], "spaces/S", "Z")
         == [AddMembership("A", "spaces/S"), RemoveMembership("D", "spaces/S")]
  {
    var ou := ["A", "B", "C"];
    var space := ["B", "C", "D"];
    ExampleMissing();
    assert space[..2] == ["B", "C"] && space[..2][..1] == ["B"] && ["B"][..0] == [];
    assert Removable(space[..2], ou, "Z") == [];
    assert Removable(space, ou, "Z") == ["D"];
  }
}
