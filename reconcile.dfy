/**
  The OU-to-space reconciliation of main.py: `clear_ou_space_map`, which prunes
  the OU-to-space map, and `edit_spaces`, which creates and renames spaces so
  that every listed OU has one. The map is the dictionary kept in
  `ou_space_map.json`; requests to the chat service are recorded in a log.

  The specification functions (Prune, EditOne, Edit) say what one pass computes;
  the class CorrelationMap runs the same loops in place, and its methods are
  proved to end in the state those functions describe.
 */
module Reconcile {
  import opened Records

  /** The OU-to-space map: OU id (or "root") to stored path and space name. */
  type OuSpaceMap = map<string, Entry>

  /** `{ou['orgUnitId'] for ou in ou_array}` */
  function OuIds(ous: seq<OrgUnit>): set<string> {
    set i | 0 <= i < |ous| :: ous[i].orgUnitId
  }

  predicate DistinctIds(ous: seq<OrgUnit>) {
    forall i, j :: 0 <= i < j < |ous| ==> ous[i].orgUnitId != ous[j].orgUnitId
  }

  /** Dropping the last OU keeps the ids distinct, and the last id is not among the others. */
  lemma DistinctPrefix(ous: seq<OrgUnit>)
    requires |ous| > 0 && DistinctIds(ous)
    ensures DistinctIds(ous[..|ous| - 1])
    ensures ous[|ous| - 1].orgUnitId !in OuIds(ous[..|ous| - 1])
  {
    var n := |ous| - 1;
    var prefix := ous[..n];
    forall i, j | 0 <= i < j < |prefix| ensures prefix[i].orgUnitId != prefix[j].orgUnitId {
      assert prefix[i] == ous[i] && prefix[j] == ous[j];
    }
    forall i | 0 <= i < n ensures prefix[i].orgUnitId != ous[n].orgUnitId {
      assert prefix[i] == ous[i];
    }
  }

  // ---------------------------------------------------------------------------
  // clear_ou_space_map

  /** The keys `clear_ou_space_map` deletes: not a current OU id, and not "root". */
  function StaleIds(m: OuSpaceMap, ids: set<string>): set<string> {
    m.Keys - ids - {RootId}
  }

  /** The map as `clear_ou_space_map` leaves it. */
  function Prune(m: OuSpaceMap, ids: set<string>): OuSpaceMap {
    m - StaleIds(m, ids)
  }

  /**
    After pruning, a key remains exactly when it was there and is a current OU
    id or "root"; what remains is unchanged, and nothing is added.
   */
  lemma PruneSpec(m: OuSpaceMap, ids: set<string>)
    ensures forall k :: k in Prune(m, ids) <==> k in m && (k in ids || k == RootId)
    ensures forall k :: k in Prune(m, ids) ==> Prune(m, ids)[k] == m[k]
    ensures RootId in m ==> RootId in Prune(m, ids)
    ensures |Prune(m, ids)| + |StaleIds(m, ids)| == |m|
  {
    var p := Prune(m, ids);
    assert p.Keys == m.Keys - StaleIds(m, ids);
    assert m.Keys == p.Keys + StaleIds(m, ids);
  }

  /** Pruning twice with the same OU listing deletes nothing the second time. */
  lemma PruneIdempotent(m: OuSpaceMap, ids: set<string>)
    ensures StaleIds(Prune(m, ids), ids) == {}
    ensures Prune(Prune(m, ids), ids) == Prune(m, ids)
  {
  }

  // ---------------------------------------------------------------------------
  // edit_spaces

  /** What a stretch of `edit_spaces` does: the new map, the requests sent, and the number of saves. */
  datatype Effect = Effect(entries: OuSpaceMap, requests: seq<Request>, saves: nat)

  /**
    The drift check of `edit_spaces`: the loop over `space_array` breaks after its
    first element, so only that element is compared with the entry.
   */
  predicate Drifted(spaces: seq<Space>, e: Entry) {
    |spaces| > 0 && DisagreesWith(spaces[0], e)
  }

  /** The space is the entry's, and its display name with a leading '/' differs from the stored path. */
  predicate DisagreesWith(space: Space, e: Entry) {
    space.name == e.name && "/" + space.displayName != e.orgUnitPath
  }

  /**
    One iteration of `edit_spaces` for the OU `ou`. `newId` is the space name the
    chat service returns if a space has to be created.
   */
  function EditOne(m: OuSpaceMap, ou: OrgUnit, spaces: seq<Space>, newId: string): Effect {
    var id := ou.orgUnitId;
    if id in m then
      var e := m[id];
      var moved := e.orgUnitPath != ou.orgUnitPath;
      var e' := e.(orgUnitPath := ou.orgUnitPath);
      var renames := if moved then [UpdateSpace(e.name, DropFirst(ou.orgUnitPath))] else [];
      var drift := Drifted(spaces, e');
      var fixes := if drift then [UpdateSpace(spaces[0].name, e'.orgUnitPath)] else [];
      Effect(m[id := e'], renames + fixes, (if moved then 1 else 0) + (if drift then 1 else 0))
    else
      Effect(m[id := Entry(ou.orgUnitPath, newId)], [CreateSpace(DropFirst(ou.orgUnitPath))], 1)
  }

  /** `edit_spaces(ous, spaces, m)`; `newIds[i]` is what creating a space for `ous[i]` returns. */
  function Edit(m: OuSpaceMap, ous: seq<OrgUnit>, spaces: seq<Space>, newIds: seq<string>): Effect
    requires |newIds| == |ous|
    decreases |ous|
  {
    if |ous| == 0 then Effect(m, [], 0)
    else
      var n := |ous| - 1;
      var p := Edit(m, ous[..n], spaces, newIds[..n]);
      var q := EditOne(p.entries, ous[n], spaces, newIds[n]);
      Effect(q.entries, p.requests + q.requests, p.saves + q.saves)
  }

  /** Creating a space: one create request named after the path without its first character. */
  lemma EditOneMissing(m: OuSpaceMap, ou: OrgUnit, spaces: seq<Space>, newId: string)
    requires ou.orgUnitId !in m
    ensures EditOne(m, ou, spaces, newId).requests == [CreateSpace(DropFirst(ou.orgUnitPath))]
    ensures EditOne(m, ou, spaces, newId).entries == m[ou.orgUnitId := Entry(ou.orgUnitPath, newId)]
    ensures EditOne(m, ou, spaces, newId).saves == 1
  {
  }

  /**
    An OU that already has an entry: no create, the space name is kept, the stored
    path becomes the OU's path; a changed path renames the stored space to the new
    path without its first character, and a drifted first space is renamed to the
    stored path as it is, leading '/' included.
   */
  lemma EditOneExisting(m: OuSpaceMap, ou: OrgUnit, spaces: seq<Space>, newId: string)
    requires ou.orgUnitId in m
    ensures var r := EditOne(m, ou, spaces, newId);
      var e := m[ou.orgUnitId];
      && r.entries == m[ou.orgUnitId := Entry(ou.orgUnitPath, e.name)]
      && r.requests
         == (if e.orgUnitPath != ou.orgUnitPath then [UpdateSpace(e.name, DropFirst(ou.orgUnitPath))] else [])
          + (if Drifted(spaces, Entry(ou.orgUnitPath, e.name)) then [UpdateSpace(e.name, ou.orgUnitPath)] else [])
      && forall k :: 0 <= k < |r.requests| ==> !r.requests[k].CreateSpace?
  {
  }

  /**
    The drift rename sends the stored path, leading '/' included, as the display
    name; once the service has applied it, the first space still counts as
    drifted, whereas the display name `path[1:]` used on creation would not.
   */
  lemma DriftRenameNeverSettles(p: string, name: string, rest: seq<Space>)
    ensures Drifted([Space(name, p)] + rest, Entry(p, name))
    ensures |p| > 0 && p[0] == '/' ==> !Drifted([Space(name, DropFirst(p))] + rest, Entry(p, name))
  {
    assert |"/" + p| != |p|;
  }

  /** The map's keys after `edit_spaces`: the old keys and every listed OU id. */
  lemma {:induction false} EditKeys(m: OuSpaceMap, ous: seq<OrgUnit>, spaces: seq<Space>, newIds: seq<string>)
    requires |newIds| == |ous|
    ensures Edit(m, ous, spaces, newIds).entries.Keys == m.Keys + OuIds(ous)
    decreases |ous|
  {
    if |ous| > 0 {
      var n := |ous| - 1;
      EditKeys(m, ous[..n], spaces, newIds[..n]);
      assert OuIds(ous) == OuIds(ous[..n]) + {ous[n].orgUnitId} by {
        assert forall i :: 0 <= i < n ==> ous[..n][i] == ous[i];
      }
    }
  }

  /** Entries of keys that are not listed OU ids are left as they were. */
  lemma {:induction false} EditFrame(m: OuSpaceMap, ous: seq<OrgUnit>, spaces: seq<Space>, newIds: seq<string>, k: string)
    requires |newIds| == |ous|
    requires k in m && k !in OuIds(ous)
    ensures k in Edit(m, ous, spaces, newIds).entries
    ensures Edit(m, ous, spaces, newIds).entries[k] == m[k]
    decreases |ous|
  {
    if |ous| > 0 {
      var n := |ous| - 1;
      assert ous[n].orgUnitId in OuIds(ous);
      assert OuIds(ous[..n]) <= OuIds(ous) by {
        assert forall i :: 0 <= i < n ==> ous[..n][i] == ous[i];
      }
      EditFrame(m, ous[..n], spaces, newIds[..n], k);
    }
  }

  /** An existing entry keeps its space name: `edit_spaces` never replaces `name`. */
  lemma {:induction false} EditKeepsNames(m: OuSpaceMap, ous: seq<OrgUnit>, spaces: seq<Space>, newIds: seq<string>, k: string)
    requires |newIds| == |ous|
    requires k in m
    ensures k in Edit(m, ous, spaces, newIds).entries
    ensures Edit(m, ous, spaces, newIds).entries[k].name == m[k].name
    decreases |ous|
  {
    if |ous| > 0 {
      var n := |ous| - 1;
      EditKeepsNames(m, ous[..n], spaces, newIds[..n], k);
    }
  }

  /** The last listed OU's entry ends up holding its path. */
  lemma EditLastWins(m: OuSpaceMap, ous: seq<OrgUnit>, spaces: seq<Space>, newIds: seq<string>)
    requires |newIds| == |ous| && |ous| > 0
    ensures ous[|ous| - 1].orgUnitId in Edit(m, ous, spaces, newIds).entries
    ensures Edit(m, ous, spaces, newIds).entries[ous[|ous| - 1].orgUnitId].orgUnitPath == ous[|ous| - 1].orgUnitPath
  {
  }

  /**
    Coverage: with distinct OU ids, every listed OU has an entry holding its path,
    and an OU that had none gets the space the service created for it.
   */
  lemma {:induction false} EditCovers(m: OuSpaceMap, ous: seq<OrgUnit>, spaces: seq<Space>, newIds: seq<string>)
    requires |newIds| == |ous| && DistinctIds(ous)
    ensures forall i :: 0 <= i < |ous| ==> ous[i].orgUnitId in Edit(m, ous, spaces, newIds).entries
    ensures forall i :: 0 <= i < |ous| ==>
      Edit(m, ous, spaces, newIds).entries[ous[i].orgUnitId].orgUnitPath == ous[i].orgUnitPath
    ensures forall i :: 0 <= i < |ous| && ous[i].orgUnitId !in m ==>
      Edit(m, ous, spaces, newIds).entries[ous[i].orgUnitId] == Entry(ous[i].orgUnitPath, newIds[i])
    decreases |ous|
  {
    if |ous| > 0 {
      var n := |ous| - 1;
      var prefix := ous[..n];
      DistinctPrefix(ous);
      EditCovers(m, prefix, spaces, newIds[..n]);
      var p := Edit(m, prefix, spaces, newIds[..n]);
      var r := Edit(m, ous, spaces, newIds);
      EditKeys(m, prefix, spaces, newIds[..n]);
      assert ous[n].orgUnitId !in m ==> ous[n].orgUnitId !in p.entries;
      forall i | 0 <= i < n
        ensures ous[i].orgUnitId in r.entries
        ensures r.entries[ous[i].orgUnitId].orgUnitPath == ous[i].orgUnitPath
        ensures ous[i].orgUnitId !in m ==> r.entries[ous[i].orgUnitId] == Entry(ous[i].orgUnitPath, newIds[i])
      {
        assert prefix[i] == ous[i] && newIds[..n][i] == newIds[i];
        assert ous[i].orgUnitId != ous[n].orgUnitId;
      }
    }
  }

  /** Every OU, in list order, that has no entry yet: the creates `edit_spaces` must send. */
  function CreatesNeeded(m: OuSpaceMap, ous: seq<OrgUnit>): seq<Request>
    decreases |ous|
  {
    if |ous| == 0 then []
    else
      var n := |ous| - 1;
      CreatesNeeded(m, ous[..n])
        + (if ous[n].orgUnitId in m then [] else [CreateSpace(DropFirst(ous[n].orgUnitPath))])
  }

  /** The create requests of a request log, in order. */
  function CreatesIn(reqs: seq<Request>): seq<Request>
    decreases |reqs|
  {
    if |reqs| == 0 then []
    else
      var n := |reqs| - 1;
      CreatesIn(reqs[..n]) + (if reqs[n].CreateSpace? then [reqs[n]] else [])
  }

  lemma {:induction false} CreatesInAppend(a: seq<Request>, b: seq<Request>)
    ensures CreatesIn(a + b) == CreatesIn(a) + CreatesIn(b)
    decreases |b|
  {
    if |b| == 0 {
      assert a + b == a;
    } else {
      var n := |b| - 1;
      assert (a + b)[..|a + b| - 1] == a + b[..n];
      CreatesInAppend(a, b[..n]);
    }
  }

  /**
    With distinct OU ids, `edit_spaces` sends exactly one create per OU that had
    no entry, in list order, and none for an OU that had one.
   */
  lemma {:induction false} EditCreates(m: OuSpaceMap, ous: seq<OrgUnit>, spaces: seq<Space>, newIds: seq<string>)
    requires |newIds| == |ous| && DistinctIds(ous)
    ensures CreatesIn(Edit(m, ous, spaces, newIds).requests) == CreatesNeeded(m, ous)
    decreases |ous|
  {
    if |ous| > 0 {
      var n := |ous| - 1;
      var prefix := ous[..n];
      DistinctPrefix(ous);
      EditCreates(m, prefix, spaces, newIds[..n]);
      var p := Edit(m, prefix, spaces, newIds[..n]);
      var q := EditOne(p.entries, ous[n], spaces, newIds[n]);
      CreatesInAppend(p.requests, q.requests);
      EditKeys(m, prefix, spaces, newIds[..n]);
      CreatesInOne(p.entries, ous[n], spaces, newIds[n]);
      assert (ous[n].orgUnitId in p.entries) == (ous[n].orgUnitId in m);
    }
  }

  /** One OU's step sends a create exactly when the OU has no entry. */
  lemma CreatesInOne(m: OuSpaceMap, ou: OrgUnit, spaces: seq<Space>, newId: string)
    ensures CreatesIn(EditOne(m, ou, spaces, newId).requests)
         == if ou.orgUnitId in m then [] else [CreateSpace(DropFirst(ou.orgUnitPath))]
  {
    var q := EditOne(m, ou, spaces, newId);
    if ou.orgUnitId in m {
      EditOneExisting(m, ou, spaces, newId);
      CreatesInNone(q.requests);
    } else {
      assert q.requests[..0] == [];
    }
  }

  lemma {:induction false} CreatesInNone(reqs: seq<Request>)
    requires forall k :: 0 <= k < |reqs| ==> !reqs[k].CreateSpace?
    ensures CreatesIn(reqs) == []
    decreases |reqs|
  {
    if |reqs| > 0 {
      CreatesInNone(reqs[..|reqs| - 1]);
    }
  }

  /** Each request `edit_spaces` sends is followed by exactly one save of the map. */
  lemma {:induction false} EditSavesPerRequest(m: OuSpaceMap, ous: seq<OrgUnit>, spaces: seq<Space>, newIds: seq<string>)
    requires |newIds| == |ous|
    ensures Edit(m, ous, spaces, newIds).saves == |Edit(m, ous, spaces, newIds).requests|
    decreases |ous|
  {
    if |ous| > 0 {
      var n := |ous| - 1;
      EditSavesPerRequest(m, ous[..n], spaces, newIds[..n]);
    }
  }

  /** The OU has an entry with its current path, and the first space has not drifted from it. */
  predicate SettledAt(m: OuSpaceMap, ou: OrgUnit, spaces: seq<Space>) {
    ou.orgUnitId in m
    && m[ou.orgUnitId].orgUnitPath == ou.orgUnitPath
    && !Drifted(spaces, m[ou.orgUnitId])
  }

  /** Every listed OU is settled. */
  predicate Settled(m: OuSpaceMap, ous: seq<OrgUnit>, spaces: seq<Space>) {
    forall i :: 0 <= i < |ous| ==> SettledAt(m, ous[i], spaces)
  }

  /** One OU's step sends nothing exactly when that OU is settled, and then it changes nothing. */
  lemma EditOneQuiet(m: OuSpaceMap, ou: OrgUnit, spaces: seq<Space>, newId: string)
    ensures EditOne(m, ou, spaces, newId).requests == [] <==> SettledAt(m, ou, spaces)
    ensures SettledAt(m, ou, spaces) ==> EditOne(m, ou, spaces, newId) == Effect(m, [], 0)
  {
    var id := ou.orgUnitId;
    if id in m {
      EditOneExisting(m, ou, spaces, newId);
      if m[id].orgUnitPath == ou.orgUnitPath {
        assert m[id].(orgUnitPath := ou.orgUnitPath) == m[id];
        assert m[id := m[id]] == m;
      }
    }
  }

  lemma SettledSplit(m: OuSpaceMap, ous: seq<OrgUnit>, spaces: seq<Space>)
    requires |ous| > 0
    ensures Settled(m, ous, spaces)
        <==> Settled(m, ous[..|ous| - 1], spaces) && SettledAt(m, ous[|ous| - 1], spaces)
  {
    var n := |ous| - 1;
    forall i | 0 <= i < n ensures ous[..n][i] == ous[i] { }
  }

  /**
    `edit_spaces` sends no request exactly when the map is already settled for the
    listing, and then it neither changes nor saves the map.
   */
  lemma {:induction false} EditQuiet(m: OuSpaceMap, ous: seq<OrgUnit>, spaces: seq<Space>, newIds: seq<string>)
    requires |newIds| == |ous|
    ensures Edit(m, ous, spaces, newIds).requests == [] <==> Settled(m, ous, spaces)
    ensures Settled(m, ous, spaces) ==> Edit(m, ous, spaces, newIds) == Effect(m, [], 0)
    decreases |ous|
  {
    if |ous| > 0 {
      var n := |ous| - 1;
      EditQuiet(m, ous[..n], spaces, newIds[..n]);
      SettledSplit(m, ous, spaces);
      var p := Edit(m, ous[..n], spaces, newIds[..n]);
      EditOneQuiet(p.entries, ous[n], spaces, newIds[n]);
      if Edit(m, ous, spaces, newIds).requests == [] {
        assert p.requests == [];
      }
    }
  }

  /** The drift check only ever reads the first element of the space listing. */
  lemma {:induction false} EditSeesFirstSpaceOnly(m: OuSpaceMap, ous: seq<OrgUnit>, spaces: seq<Space>, newIds: seq<string>)
    requires |newIds| == |ous| && |spaces| > 0
    ensures Edit(m, ous, spaces, newIds) == Edit(m, ous, spaces[..1], newIds)
    decreases |ous|
  {
    if |ous| > 0 {
      var n := |ous| - 1;
      EditSeesFirstSpaceOnly(m, ous[..n], spaces, newIds[..n]);
      assert spaces[..1][0] == spaces[0];
    }
  }

  /** No entry of the listed OUs has a drifted first space. */
  predicate NoDrift(m: OuSpaceMap, ous: seq<OrgUnit>, spaces: seq<Space>) {
    forall i :: 0 <= i < |ous| && ous[i].orgUnitId in m ==> !Drifted(spaces, m[ous[i].orgUnitId])
  }

  /**
    Idempotence: a second `edit_spaces` over the same OU listing, with a space
    listing that shows no drift, sends nothing and leaves the map as the first
    pass left it.
   */
  lemma EditTwiceQuiet(m: OuSpaceMap, ous: seq<OrgUnit>, spaces: seq<Space>, newIds: seq<string>,
                       spaces2: seq<Space>, newIds2: seq<string>)
    requires |newIds| == |ous| && |newIds2| == |ous| && DistinctIds(ous)
    requires NoDrift(Edit(m, ous, spaces, newIds).entries, ous, spaces2)
    ensures var m1 := Edit(m, ous, spaces, newIds).entries;
      Edit(m1, ous, spaces2, newIds2) == Effect(m1, [], 0)
  {
    var m1 := Edit(m, ous, spaces, newIds).entries;
    EditCovers(m, ous, spaces, newIds);
    assert Settled(m1, ous, spaces2);
    EditQuiet(m1, ous, spaces2, newIds2);
  }

  // ---------------------------------------------------------------------------
  // The reconciliation step of the main driver

  /** The listing the driver passes on: the directory's OUs followed by the synthetic root OU. */
  function WithRoot(cfg: Config, ous: seq<OrgUnit>): seq<OrgUnit> {
    ous + [OrgUnit(RootId, cfg.ouRootPath)]
  }

  /** `clear_ou_space_map` followed by `edit_spaces` over the listing with the root OU appended. */
  function ReconcileMap(cfg: Config, m: OuSpaceMap, ous: seq<OrgUnit>, spaces: seq<Space>, newIds: seq<string>): Effect
    requires |newIds| == |ous| + 1
  {
    var all := WithRoot(cfg, ous);
    Edit(Prune(m, OuIds(all)), all, spaces, newIds)
  }

  lemma OuIdsWithRoot(cfg: Config, ous: seq<OrgUnit>)
    ensures OuIds(WithRoot(cfg, ous)) == OuIds(ous) + {RootId}
  {
    var all := WithRoot(cfg, ous);
    assert all[|ous|].orgUnitId == RootId;
    assert forall i :: 0 <= i < |ous| ==> all[i] == ous[i];
  }

  /**
    After the driver's reconciliation the map's keys are exactly the current OU
    ids and "root", and the root entry holds the configured root path.
   */
  lemma ReconcileKeys(cfg: Config, m: OuSpaceMap, ous: seq<OrgUnit>, spaces: seq<Space>, newIds: seq<string>)
    requires |newIds| == |ous| + 1
    ensures ReconcileMap(cfg, m, ous, spaces, newIds).entries.Keys == OuIds(ous) + {RootId}
    ensures ReconcileMap(cfg, m, ous, spaces, newIds).entries[RootId].orgUnitPath == cfg.ouRootPath
  {
    var all := WithRoot(cfg, ous);
    OuIdsWithRoot(cfg, ous);
    var pruned := Prune(m, OuIds(all));
    PruneSpec(m, OuIds(all));
    EditKeys(pruned, all, spaces, newIds);
    EditLastWins(pruned, all, spaces, newIds);
  }

  // ---------------------------------------------------------------------------
  // The map held in memory, saved to its file after every change

  /** Deleting one more stale key: the bookkeeping of the loop in `clear_ou_space_map`. */
  lemma RemoveOne(m: OuSpaceMap, d: set<string>, t: set<string>, deleted: set<string>, id: string)
    requires id in t && t <= d && id != RootId && deleted == d - t - {RootId}
    ensures deleted + {id} == d - (t - {id}) - {RootId}
    ensures |deleted + {id}| == |deleted| + 1
    ensures (m - deleted) - {id} == m - (deleted + {id})
  {
  }

  lemma SkipRoot(d: set<string>, t: set<string>)
    requires RootId in t
    ensures d - (t - {RootId}) - {RootId} == d - t - {RootId}
  {
  }

  class CorrelationMap {
    /** The dictionary `ou_space_map`. */
    var entries: OuSpaceMap
    /** What `ou_space_map.json` holds: the map as of the last save. */
    var persisted: OuSpaceMap
    /** How many times `save_ou_space_map` has been called. */
    var saveCount: nat
    /** The requests sent to the chat service, in order. */
    var requests: seq<Request>

    /** Between operations the file holds the map in memory: every change is saved at once. */
    ghost predicate Valid()
      reads this
    {
      persisted == entries
    }

    /** `load_ou_space_map()`: the map as read back from its file. */
    constructor Load(stored: OuSpaceMap)
      ensures Valid() && entries == stored && saveCount == 0 && requests == []
    {
      entries, persisted, saveCount, requests := stored, stored, 0, [];
    }

    /** `save_ou_space_map(ou_space_map)` */
    method Save()
      modifies this
      ensures persisted == entries && Valid()
      ensures entries == old(entries) && requests == old(requests) && saveCount == old(saveCount) + 1
    {
      persisted := entries;
      saveCount := saveCount + 1;
    }

    /** `request_create_space(displayName)`; the service answers with the space name `newId`. */
    method RequestCreateSpace(displayName: string, newId: string) returns (name: string)
      modifies this
      ensures name == newId
      ensures requests == old(requests) + [CreateSpace(displayName)]
      ensures entries == old(entries) && persisted == old(persisted) && saveCount == old(saveCount)
    {
      requests := requests + [CreateSpace(displayName)];
      name := newId;
    }

    /** `request_update_space(name, displayName)` */
    method RequestUpdateSpace(name: string, displayName: string)
      modifies this
      ensures requests == old(requests) + [UpdateSpace(name, displayName)]
      ensures entries == old(entries) && persisted == old(persisted) && saveCount == old(saveCount)
    {
      requests := requests + [UpdateSpace(name, displayName)];
    }

    /** `del ou_space_map[id]` followed by `save_ou_space_map(ou_space_map)`. */
    method DeleteAndSave(id: string)
      requires Valid()
      modifies this
      ensures Valid()
      ensures entries == old(entries) - {id} && requests == old(requests) && saveCount == old(saveCount) + 1
    {
      entries := entries - {id};
      Save();
    }

    /** `clear_ou_space_map(ou_space_map, ou_array)`, deleting the stale keys in any order. */
    method ClearMap(ous: seq<OrgUnit>)
      requires Valid()
      modifies this
      ensures Valid()
      ensures entries == Prune(old(entries), OuIds(ous))
      ensures saveCount == old(saveCount) + |StaleIds(old(entries), OuIds(ous))|
      ensures requests == old(requests)
    {
      ghost var start, saves0, log := entries, saveCount, requests;
      var saveIds := OuIds(ous);
      var deleteIds := entries.Keys - saveIds;
      var todo := deleteIds;
      ghost var deleted: set<string> := {};
      while todo != {}
        invariant todo <= deleteIds
        invariant deleted == deleteIds - todo - {RootId}
        invariant entries == start - deleted
        invariant saveCount == saves0 + |deleted|
        invariant Valid() && requests == log
        decreases |todo|
      {
        var id :| id in todo;
        ghost var was := todo;
        todo := todo - {id};
        if id == RootId {
          SkipRoot(deleteIds, was);
          continue;
        }
        RemoveOne(start, deleteIds, was, deleted, id);
        DeleteAndSave(id);
        deleted := deleted + {id};
      }
      assert deleted == StaleIds(start, saveIds);
    }

    /** One iteration of the loop in `edit_spaces`, for the OU `ou`. */
    method EditOu(ou: OrgUnit, spaces: seq<Space>, newId: string)
      requires Valid()
      modifies this
      ensures Valid()
      ensures var q := EditOne(old(entries), ou, spaces, newId);
        entries == q.entries && requests == old(requests) + q.requests && saveCount == old(saveCount) + q.saves
    {
      var id := ou.orgUnitId;
      if id in entries {
        if entries[id].orgUnitPath != ou.orgUnitPath {
          RequestUpdateSpace(entries[id].name, DropFirst(ou.orgUnitPath));
          entries := entries[id := entries[id].(orgUnitPath := ou.orgUnitPath)];
          Save();
        }
        ghost var renamed := Effect(entries, requests, saveCount);
        for j := 0 to |spaces|
          invariant j == 0
          invariant entries == renamed.entries && requests == renamed.requests && saveCount == renamed.saves
          invariant Valid()
        {
          var space := spaces[j];
          if DisagreesWith(space, entries[id]) {
            RequestUpdateSpace(space.name, entries[id].orgUnitPath);
            Save();
          }
          break;
        }
      } else {
        var name := RequestCreateSpace(DropFirst(ou.orgUnitPath), newId);
        entries := entries[id := Entry(ou.orgUnitPath, name)];
        Save();
      }
    }

    /** `edit_spaces(ou_array, space_array, ou_space_map)`; `newIds[i]` answers a create for `ous[i]`. */
    method EditSpaces(ous: seq<OrgUnit>, spaces: seq<Space>, newIds: seq<string>)
      requires Valid() && |newIds| == |ous|
      modifies this
      ensures Valid()
      ensures var e := Edit(old(entries), ous, spaces, newIds);
        entries == e.entries && requests == old(requests) + e.requests && saveCount == old(saveCount) + e.saves
    {
      for i := 0 to |ous|
        invariant Valid()
        invariant var e := Edit(old(entries), ous[..i], spaces, newIds[..i]);
          entries == e.entries && requests == old(requests) + e.requests && saveCount == old(saveCount) + e.saves
      {
        ghost var p := Edit(old(entries), ous[..i], spaces, newIds[..i]);
        ghost var q := EditOne(entries, ous[i], spaces, newIds[i]);
        EditOu(ous[i], spaces, newIds[i]);
        assert ous[..i + 1][..i] == ous[..i] && newIds[..i + 1][..i] == newIds[..i];
        assert Edit(old(entries), ous[..i + 1], spaces, newIds[..i + 1])
            == Effect(q.entries, p.requests + q.requests, p.saves + q.saves);
        assert requests == old(requests) + (p.requests + q.requests);
      }
      assert ous[..|ous|] == ous && newIds[..|ous|] == newIds;
    }

    /**
      The reconciliation half of the main driver: append the root OU, prune the
      map, run `edit_spaces`, and save once more.
     */
    method Reconcile(cfg: Config, ous: seq<OrgUnit>, spaces: seq<Space>, newIds: seq<string>)
      requires Valid() && |newIds| == |ous| + 1
      modifies this
      ensures Valid()
      ensures var all := WithRoot(cfg, ous);
        var e := ReconcileMap(cfg, old(entries), ous, spaces, newIds);
        && entries == e.entries
        && requests == old(requests) + e.requests
        && saveCount == old(saveCount) + |StaleIds(old(entries), OuIds(all))| + e.saves + 1
      ensures entries.Keys == OuIds(ous) + {RootId}
      ensures entries[RootId].orgUnitPath == cfg.ouRootPath
    {
      var all := ous + [OrgUnit(RootId, cfg.ouRootPath)];
      ClearMap(all);
      EditSpaces(all, spaces, newIds);
      Save();
      ReconcileKeys(cfg, old(entries), ous, spaces, newIds);
    }
  }
}
