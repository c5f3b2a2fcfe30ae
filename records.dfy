/**
  The records main.py passes around as JSON dictionaries, and the requests it
  sends to the chat service.
 */
module Records {

  /** An entry of the directory's `organizationUnits` listing. */
  datatype OrgUnit = OrgUnit(orgUnitId: string, orgUnitPath: string)

  /** An entry of the chat service's `spaces` listing; `name` is the resource name ("spaces/..."). */
  datatype Space = Space(name: string, displayName: string)

  /** The value stored under an OU id in the OU-to-space map (`ou_space_map.json`). */
  datatype Entry = Entry(orgUnitPath: string, name: string)

  /** The configuration values the core reads from `config.json`. */
  datatype Config = Config(adminUserId: string, treeTraversalRoleId: string, ouRootPath: string)

  /** The id of the synthetic OU that stands for the configured root path. */
  const RootId: string := "root"

  /** A mutating request sent to the chat service, in the order the program sends them. */
  datatype Request =
    | CreateSpace(displayName: string)
    | UpdateSpace(space: string, displayName: string)
    | AddMembership(memberId: string, spaceName: string)
    | RemoveMembership(memberId: string, spaceName: string)

  /** Python's `path[1:]`: the path without its first character ("" stays ""). */
  function DropFirst(path: string): (r: string)
    ensures |path| > 0 ==> [path[0]] + r == path
    ensures |path| == 0 ==> r == []
  {
    if |path| == 0 then [] else path[1..]
  }
}
