# GoogleChatSync core in Dafny

GoogleChatSync keeps a Google Chat space for every organizational unit (OU)
in a Google Workspace directory, and keeps the space's members in step with
the OU. It does this in three stages. First it reconciles a stored OU-to-space
map, `ou_space_map.json`, with the current directory listing. Then it creates
or renames spaces. Last, for each OU, it adds the users who should be in the
space and removes those who should not. The administrator account is never
removed.

This project models that logic of `main.py`. The HTTP layer is left out.

- `paths.dfy` (module `Paths`) holds the path test `is_under` and its `norm`.
  - `norm` strips ASCII white space and every trailing `/`.
  - `None` is treated as `""`.
  - A reference model of `split('/')` proves that `is_under` is the prefix order on path segments.
- `records.dfy` (module `Records`) holds the JSON records and the requests sent to the chat service.
- `reconcile.dfy` (module `Reconcile`) holds `clear_ou_space_map`, `edit_spaces` and the first half of the main driver.
  - Specification functions say what one pass computes: `Prune`, `EditOne`, `Edit` and `ReconcileMap`.
  - The class `CorrelationMap` runs the same loops on the map in place.
  - The class saves after every change, records every request in a log, and counts the saves.
- `membership.dfy` (module `Membership`) holds the selection logic of `request_ou_space_members`, working on pages already fetched:
  - the holders of the tree-traversal role;
  - the inclusion rule for directory users;
  - the live members of the space.
- `sync.dfy` (module `Sync`) holds `sync_ou_space_membership`: the add and remove requests, and the space membership those requests produce.
- `driver.dfy` (module `Driver`) holds the membership half of the main driver. It walks the stored entries, skips those without a path or a name, and syncs the rest.

A create request's answer is a parameter: `newIds[i]` is the space name the
service returns for the i-th listed OU. The configuration values
`ADMIN_USER_ID`, `TREE_TRAVERSAL_ROLE_ID` and `OU_ROOT_PATH` are the fields of
a `Config` value.

## Model

| member | source | states |
|---|---|---|
| Paths.IsUnder | main.py:109-118 | `is_under`: equal normal forms, or the user's normal form starts with the target's plus `/`; its properties are the lemmas below |
| Paths.Norm | main.py:110-111 | `norm`: strip white space on both sides, then every trailing `/` |
| Paths.LStrip | main.py:110-111 | leading-white-space strip: the result is no longer than the input and does not start with white space |
| Paths.LStripIsSuffix | main.py:110-111 | what the leading strip leaves is a suffix of the input |
| Paths.RStripSpace | main.py:110-111 | trailing-white-space strip: the result is a prefix of the input and does not end in white space |
| Paths.RStripSlash | main.py:110-111 | `rstrip('/')`: the result is a prefix of the input and does not end in `/` |
| Paths.IsUnderReflexive | main.py:113-117 | every path, `None` included, is under itself |
| Paths.IsUnderTransitive | main.py:109-118 | if a is under b and b is under c, then a is under c |
| Paths.IsUnderSegmentBoundary | main.py:118 | "/A/B" is under "/A"; "/AB" is not under "/A"; "/A" is not under "/A/B" |
| Paths.IsUnderNoneIsEmpty | main.py:113-114 | `None` behaves as `""` in either argument |
| Paths.IsUnderIgnoresSpace | main.py:110-114 | surrounding white space on either argument does not change the answer |
| Paths.IsUnderIgnoresTrailingSlashes | main.py:110-114 | trailing slashes on a path that does not end in white space do not change the answer, on either side |
| Paths.IsUnderRespectsNorm | main.py:110-114 | two arguments with the same normal form give the same answer on either side |
| Paths.NormIgnoresSpace | main.py:110-111 | surrounding white space does not change a path's normal form |
| Paths.NormIgnoresTrailingSlashes | main.py:110-111 | trailing slashes do not change the normal form of a path that does not end in white space |
| Paths.NormClean | main.py:110-111 | a path with no surrounding white space and no trailing slash is its own normal form |
| Paths.LStripEmpty | main.py:110-111 | only an all-white-space string strips to nothing |
| Paths.Segments | main.py:118 | reference `split('/')` used to explain `is_under`: it always gives at least one segment |
| Paths.JoinSegments | main.py:118 | joining the segments with `/` gives the path back |
| Paths.SegmentsOfJoin | main.py:118 | splitting a join of slash-free segments gives the segments back |
| Paths.SegmentsHaveNoSlash | main.py:118 | no segment contains `/` |
| Paths.SegmentsPrefix | main.py:116-118 | the segments of o are a prefix of those of u exactly when u equals o or starts with o plus `/` |
| Paths.IsUnderBySegments | main.py:109-118 | `is_under` holds exactly when the target's normalised segments are a prefix of the user's |
| Records.DropFirst | main.py:155 | `path[1:]`: the path without its first character, and "" for "" |
| Reconcile.Prune | main.py:129-138 | the map `clear_ou_space_map` leaves: the old map without the keys that are neither listed OU ids nor "root" |
| Reconcile.PruneSpec | main.py:129-138 | after pruning a key remains exactly when it was present and is a current OU id or "root"; kept entries are unchanged; "root" survives; one key is deleted per stale id |
| Reconcile.PruneIdempotent | main.py:129-138 | pruning twice with the same OU list deletes nothing more |
| Reconcile.CorrelationMap.ClearMap | main.py:129-138 | the map becomes the pruned map; there is one save per deleted key; no request is sent; the file holds the map |
| Reconcile.CorrelationMap.DeleteAndSave | main.py:136-137 | deletes one key and saves |
| Reconcile.CorrelationMap.Save | main.py:86-88 | the file holds the map as it is now, and the save count goes up by one |
| Reconcile.CorrelationMap.Load | main.py:94-99 | the map in memory is what the file held; no saves or requests yet |
| Reconcile.CorrelationMap.RequestCreateSpace | main.py:177-192 | logs one create with the given display name and returns the service's answer |
| Reconcile.CorrelationMap.RequestUpdateSpace | main.py:202-214 | logs one rename of the given space |
| Reconcile.EditOne | main.py:151-169 | one OU's step of `edit_spaces`: new map, requests in order and number of saves |
| Reconcile.Edit | main.py:150-169 | `edit_spaces` as the left fold of `EditOne` over the OU list |
| Reconcile.EditOneMissing | main.py:163-169 | an OU without an entry gets exactly one create named `path[1:]`, the entry {path, new id} and one save |
| Reconcile.EditOneExisting | main.py:153-162 | an OU with an entry gets no create and keeps its space name. A moved path logs one rename of the stored name to `path[1:]`, then the path is updated. The drift rename then passes the stored path unchanged. |
| Reconcile.DriftRenameNeverSettles | main.py:158-160 | a space named after the stored path counts as drifted, while for a path starting with `/` one named `path[1:]` does not |
| Reconcile.CorrelationMap.EditOu | main.py:151-169 | one loop iteration ends in the state `EditOne` describes: the first space is the only one examined |
| Reconcile.CorrelationMap.EditSpaces | main.py:150-169 | the whole loop ends in the state `Edit` describes: map, request log and save count |
| Reconcile.EditKeys | main.py:150-169 | the keys afterwards are the old keys plus the listed OU ids |
| Reconcile.EditFrame | main.py:150-169 | an entry for an id that is not listed is left untouched |
| Reconcile.EditKeepsNames | main.py:153-162 | the space name of an existing entry never changes |
| Reconcile.EditLastWins | main.py:150-157 | the last listed OU's entry holds its path |
| Reconcile.EditCovers | main.py:150-169 | with distinct ids every listed OU has an entry with its path, and a new OU records the id the service returned |
| Reconcile.EditCreates | main.py:163-169 | with distinct ids the creates are exactly one per OU that had no entry, in list order |
| Reconcile.CreatesInOne | main.py:153-169 | one OU's step creates exactly when that OU has no entry |
| Reconcile.EditSavesPerRequest | main.py:150-169 | there is exactly one save per request sent |
| Reconcile.EditOneQuiet | main.py:153-162 | one OU's step sends nothing exactly when its entry matches and its first space has not drifted, and then changes nothing |
| Reconcile.EditQuiet | main.py:150-162 | no request is sent exactly when every listed OU is settled; then the map is unchanged and nothing is saved |
| Reconcile.EditSeesFirstSpaceOnly | main.py:158-162 | the pass gives the same result when only the first space is listed |
| Reconcile.EditTwiceQuiet | main.py:150-169 | a second pass over the same OUs against a space listing without drift sends nothing and changes nothing |
| Reconcile.ReconcileMap | main.py:369-376 | the driver's reconciliation: append the root OU, prune, then edit |
| Reconcile.OuIdsWithRoot | main.py:369-372 | the listing ids with the synthetic OU appended are the OU ids plus "root" |
| Reconcile.ReconcileKeys | main.py:369-376 | after prune and edit the keys are exactly the current OU ids plus "root", and "root" holds `OU_ROOT_PATH` |
| Reconcile.CorrelationMap.Reconcile | main.py:369-376 | append the root OU, prune, edit and save: the state `ReconcileMap` describes, with keys the OU ids plus "root" |
| Membership.TraversalHolders | main.py:302-304 | the `assignedTo` of every role item with the tree-traversal role id, in order |
| Membership.Included | main.py:321 | the three-way inclusion test, with the raw comparison against `OU_ROOT_PATH` |
| Membership.TraversalHoldersSpec | main.py:302-304 | a user is in the traversal list exactly when some role item with the tree-traversal role id is assigned to them |
| Membership.CollectTraversalHolders | main.py:296-304 | the role loop builds the traversal list |
| Membership.SelectSpec | main.py:318-322 | an id is selected exactly when some user with that id passes the test |
| Membership.SelectUsersSpec | main.py:318-322 | an id is selected exactly when some user with it is under the target; or the target is under that user and the user holds the traversal role; or the target is literally `OU_ROOT_PATH` |
| Membership.SelectAppend | main.py:318-322 | selecting from two lists one after the other equals selecting from their concatenation |
| Membership.SelectPageByPage | main.py:306-327 | filtering page by page gives the same ids, in the same order, as filtering all pages joined |
| Membership.CollectOuMembers | main.py:306-327 | the user loop over all pages gives the selection over the joined pages |
| Membership.TraversalScenario | main.py:318-322 | a /Eng user with the role is included for /Eng/Backend; a /Eng user without it is not |
| Membership.LastSegmentSpec | main.py:348 | `split('/')[-1]` has no `/`, ends the name, and is the whole name or follows its last `/` |
| Membership.LiveMemberIds | main.py:346-348 | the last `/` segment of each membership name without `deletionTime`, in order |
| Membership.LiveMemberIdsSpec | main.py:346-348 | an id is listed exactly when some membership without `deletionTime` has a name ending in that segment |
| Membership.CollectSpaceMembers | main.py:334-350 | the membership loop reads only the first page and lists its live members in order |
| Membership.OnlyFirstPageCounts | main.py:349-350 | pages after the first never reach the result |
| Membership.RequestOuSpaceMembers | main.py:291-356 | both lists as the three loops build them |
| Sync.MissingSpec | main.py:226-228 | each id is added as often as the OU list has it, unless the space list has it |
| Sync.RemovableSpec | main.py:230-233 | each id is removed as often as the space list has it, unless the OU list has it or it is the admin |
| Sync.Missing | main.py:226-228 | the add list is no longer than the OU list |
| Sync.Removable | main.py:230-233 | the remove list is no longer than the space list |
| Sync.SyncRequests | main.py:225-233 | the adds for the missing OU members in OU order, then the removes in space order |
| Sync.SyncMembership | main.py:225-233 | the two loops send all the adds in OU order, then all the removes in space order |
| Sync.SyncOrder | main.py:225-233 | every add comes before every remove, and every request is about the synced space |
| Sync.InMissing | main.py:226-227 | an id is in the add list exactly when the OU has it and the space does not |
| Sync.InRemovable | main.py:230-232 | an id is in the remove list exactly when the space has it, the OU does not, and it is not the admin |
| Sync.SyncAddsExactly | main.py:226-228 | a user is added exactly when the OU list has them and the space list does not |
| Sync.SyncRemovesExactly | main.py:230-233 | a user is removed exactly when the space list has them, the OU list does not, and they are not the admin, so no user is both added and removed |
| Sync.SyncConverges | main.py:225-233 | once the requests are carried out the space holds the OU's members, plus the admin if already present |
| Sync.SyncQuietWhenEqual | main.py:225-233 | a space whose members already match the OU gets no request |
| Sync.ExampleMissing | main.py:226-228 | for OU [A,B,C] and space [B,C,D], only A is missing |
| Sync.SyncExampleKeepsAdmin | main.py:225-233 | OU [A,B,C], space [B,C,D], admin D: add A, remove nothing |
| Sync.SyncExampleRemovesOthers | main.py:225-233 | the same lists with admin Z: add A, then remove D |
| Driver.AllRequests | main.py:379-389 | each non-skipped entry's sync requests, entries in order |
| Driver.SyncAll | main.py:379-389 | the loop over the stored entries skips those without path or name and sends each other entry's sync requests in order |
| Driver.AllRequestsTargets | main.py:379-389 | every request adds or removes a member of the space of an entry that was not skipped |

## Left out

- `create_session` (main.py:40-69), the HTTP retry wrapper, is not part of this model. It is transport, and its wait sleeps with a timer that squares instead of doubling.
- Every HTTP call is left out, and so are their failures.
  - Failures end the program through `sys.exit(1)`: a non-200 answer makes `create_session` return `None`, and reading it raises.
  - The model therefore takes every answer as a success.
- The `return [], []` branches of `request_ou_space_members` are left out. A failed fetch reaches `sys.exit(1)` first, so these branches cannot be reached; the model follows the code.
- JSON file I/O is modelled by `persisted`, the map as of the last save, and the `saveCount` counter. The encoding and decoding round trip is not modelled. A missing file loads as whatever map the caller passes to `Load`.
- Configuration loading, service-account credentials and the logging setup (main.py:9-24, 72-80) are left out. The configuration values are the `Config` parameter. `log_error` writes only a log file, so it is not modelled.
- `Paths.IsSpace`: Python's `str.strip()` also removes non-ASCII white space. The model uses the ASCII set only, as there is no Unicode table here.
- Entries whose fields are missing are left out. `ou_space_map[ou_id].get("orgUnitPath")` and `['name']` on such an entry would return `None` or raise `KeyError`. The model's entries always have both fields.
- Driver.SyncAll holds for any list of entries. Nothing ties `items` to the map that `Reconcile` leaves, neither its order nor its contents. The source's case, the reloaded map's values in file order, is one such list.
- Driver.SyncAll also takes the service answers for each entry as a function, `fetch`. So every call sees fixed answers for the same entry.
- A directory user without an `id` field cannot be expressed. The model's `DirUser` always has an id.
- The directory user listing follows `nextPageToken` (main.py:324-326); `userPages` are all the pages the directory would serve.
- `memberPages` are the pages the chat service would serve for a space. The code never reassigns its page token, so it reads only the first of them.
- Service records are taken as well formed. In the source a missing field ends the run with `sys.exit(1)`:
  - `data['items']` or `role['assignedTo']` (main.py:302-304), caught at main.py:327-329;
  - a membership without `name` (main.py:348), caught at main.py:351-353;
  - `ou['orgUnitId']`, `ou['orgUnitPath']`, `space['name']` or `space['displayName']` in `edit_spaces` (main.py:152-159), caught at main.py:390-392.
- `request_update_space` also reads the space back before patching it. That read is not modelled.
