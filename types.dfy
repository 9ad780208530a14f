/** The entities every page of the extension shares: extension records as
    the host reports them, groups, host replies and the persisted layout. */
module Types {
  import opened Dicts

  datatype Option<T> = None | Some(value: T) {
    function GetOr(default: T): T {
      match this
      case Some(v) => v
      case None => default
    }
  }

  type ExtId = string
  type GroupId = string

  /** Key of the reserved always-on group, shown to the user as "Fixed". */
  const AlwaysOn: GroupId := "always-on"
  const FixedName: string := "Fixed"

  datatype Icon = Icon(url: string, size: nat)

  /** One entry of chrome.management.getAll(): `kind` is the record's `type` field. */
  datatype Extension = Extension(
    id: ExtId,
    name: string,
    enabled: bool,
    kind: string,
    installType: string,
    disabledReason: Option<string>,
    permissions: Option<seq<string>>,
    hostPermissions: Option<seq<string>>,
    icons: Option<seq<Icon>>,
    updateUrl: Option<string>)

  /** A stored group: `extensions` lists member extension ids in order. */
  datatype Group = Group(id: GroupId, name: string, extensions: seq<ExtId>, isDefault: bool)

  /** The group every load inserts when the reserved key is missing. */
  function FixedGroup(): (g: Group)
    ensures g.id == AlwaysOn && g.isDefault && g.extensions == []
  {
    Group(AlwaysOn, FixedName, [], true)
  }

  /** `this.groups`: group id to group, in insertion order. */
  type Groups = Dict<Group>
  /** `this.extensions`: extension id to its record, in insertion order. */
  type Registry = Dict<Extension>

  /** A rejected host call: the thrown error's `message` and optional `code`. */
  datatype HostError = HostError(message: string, code: Option<string>)
  datatype HostReply = Done | Failed(error: HostError)

  /** chrome.management.setEnabled as an oracle: the reply to attempt `k`
      for `id` with `enable`, the attempt being the retry counter of the
      caller (0 for a caller that does not retry). Two list entries with the
      same id therefore get the same replies. */
  type HostOracle = (ExtId, bool, nat) -> HostReply

  /** The outcome of one chrome.management.getAll() call. */
  datatype Fetch = Fetched(list: seq<Extension>) | FetchFailed(message: string)

  /** The outcome of chrome.storage.local.get(['groups']). */
  datatype GroupsRead = ReadFailed(message: string) | Read(groups: Option<Groups>)

  /** One failure journal entry; `extensionDetails` is the record with its icons dropped. */
  datatype FailureEntry = FailureEntry(
    extensionId: ExtId,
    extensionName: Option<string>,
    targetState: bool,
    error: string,
    errorCode: Option<string>,
    timestamp: string,
    extensionDetails: Option<Extension>)

  /** The keys chrome.storage.local.set writes. */
  datatype StorageKey = GroupsKey | GroupOrderKey | FailedTogglesKey

  /** The content of chrome.storage.local; `None` is a key never written. */
  datatype Stored = Stored(
    groups: Option<Groups>,
    groupOrder: Option<seq<GroupId>>,
    failedToggles: Option<seq<FailureEntry>>)
  {
    ghost predicate Valid() {
      groups.Some? ==> groups.value.Valid()
    }
  }
}
