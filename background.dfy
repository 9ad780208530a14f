/** The background service worker (background.js): the guardian that switches
    a member of the reserved group back on when something disables it, and
    the message API the pages can call. Nothing here keeps state between
    events: both handlers are decisions over what they read, and their effects
    are given as the list of host calls they make. */
module Background {
  import opened Types
  import opened Dicts

  /** The host calls the worker makes. */
  datatype HostCall = SetEnabled(extId: ExtId, enabled: bool) | GetAll

  /** A `setTimeout` the handler arms: `call` is made after `delay` milliseconds. */
  datatype Timer = Timer(delay: nat, call: HostCall)

  /** The re-enable delay. */
  const ReassertDelay: nat := 100

  // ---------------------------------------------------------------- the guardian

  /** The groups the handler works with: those stored, or `{}` when none are. */
  function GroupsOf(read: GroupsRead): (g: Groups)
    requires read.Read?
  {
    read.groups.GetOr(Empty())
  }

  /** `handleExtensionStateChange(extensionId, enabled)`, given what its
      storage read returned: the extension was disabled, the read succeeded,
      the reserved group is stored and lists the extension. */
  predicate ShouldReassert(read: GroupsRead, extensionId: ExtId, enabled: bool) {
    && !enabled
    && read.Read?
    && AlwaysOn in GroupsOf(read).items
    && extensionId in GroupsOf(read).items[AlwaysOn].extensions
  }

  /** The timers one state-change notification arms. */
  function OnStateChange(read: GroupsRead, extensionId: ExtId, enabled: bool): (timers: seq<Timer>)
    ensures |timers| <= 1
  {
    if ShouldReassert(read, extensionId, enabled) then [Timer(ReassertDelay, SetEnabled(extensionId, true))] else []
  }

  /** A disable notification for a member of the reserved group arms exactly one
      re-enable of that extension after 100 ms; an enable notification, a failed
      read, missing stored groups, a missing reserved group or an extension it
      does not list arm nothing. Each notification decides from its own read. */
  lemma OnStateChangeFacts(read: GroupsRead, extensionId: ExtId, enabled: bool)
    ensures enabled ==> OnStateChange(read, extensionId, enabled) == []
    ensures read.ReadFailed? || (read.Read? && read.groups.None?) ==> OnStateChange(read, extensionId, enabled) == []
    ensures read.Read? && AlwaysOn !in GroupsOf(read).items ==> OnStateChange(read, extensionId, enabled) == []
    ensures !enabled && read.Read? && AlwaysOn in GroupsOf(read).items ==>
      (OnStateChange(read, extensionId, enabled) == [Timer(100, SetEnabled(extensionId, true))] <==>
         extensionId in GroupsOf(read).items[AlwaysOn].extensions)
    ensures forall t :: t in OnStateChange(read, extensionId, enabled) ==>
      t.call == SetEnabled(extensionId, true) && t.delay == 100
  {
  }

  /** What the timer's callback logs. */
  datatype LogLine = Reenabled(extId: ExtId) | ReenableFailed(extId: ExtId, error: HostError)

  /** The result of running an armed timer. */
  datatype Fired = Fired(calls: seq<HostCall>, log: LogLine)

  /** The timer's callback for `extId`, whose host call gets `reply`. */
  function FireReassert(extId: ExtId, reply: HostReply): (f: Fired)
  {
    match reply
    case Done => Fired([SetEnabled(extId, true)], Reenabled(extId))
    case Failed(e) => Fired([SetEnabled(extId, true)], ReenableFailed(extId, e))
  }

  /** The re-enable is a single attempt: one call whatever the reply, and a
      refusal is only logged, with its error. */
  lemma FireReassertFacts(extId: ExtId, reply: HostReply)
    ensures FireReassert(extId, reply).calls == [SetEnabled(extId, true)]
    ensures FireReassert(extId, reply).log.Reenabled? <==> reply.Done?
    ensures reply.Failed? ==> FireReassert(extId, reply).log == ReenableFailed(extId, reply.error)
  {
  }

  // ---------------------------------------------------------------- the message API

  /** A runtime message: its `action`, and for a toggle the `extensionId` and `enabled` fields. */
  datatype Request = Request(action: string, extensionId: ExtId, enabled: bool)

  datatype Response = ExtensionsReply(extensions: seq<Extension>) | ErrorReply(error: string) | SuccessReply

  /** What the listener does for one message: the host calls it makes, the
      response it sends, if any, and whether it returns `true` to keep the
      channel open for that response. */
  datatype Dispatch = Dispatch(calls: seq<HostCall>, response: Option<Response>, keepOpen: bool)

  /** The `onMessage` listener, given the reply to `getAll()` and to `setEnabled(id, enabled)`. */
  function OnMessage(request: Request, fetch: Fetch, reply: HostReply): (d: Dispatch)
    ensures d.keepOpen <==> d.response.Some?
  {
    if request.action == "getExtensions" then
      match fetch
      case Fetched(list) => Dispatch([GetAll], Some(ExtensionsReply(list)), true)
      case FetchFailed(message) => Dispatch([GetAll], Some(ErrorReply(message)), true)
    else if request.action == "toggleExtension" then
      match reply
      case Done => Dispatch([SetEnabled(request.extensionId, request.enabled)], Some(SuccessReply), true)
      case Failed(e) => Dispatch([SetEnabled(request.extensionId, request.enabled)], Some(ErrorReply(e.message)), true)
    else Dispatch([], None, false)
  }

  /** A toggle forwards the id and the flag unchanged and answers success or
      the error's message; a listing answers the list or the error's message;
      any other action makes no call and gets no response. */
  lemma OnMessageFacts(request: Request, fetch: Fetch, reply: HostReply)
    ensures var d := OnMessage(request, fetch, reply);
      && (request.action == "toggleExtension" ==>
            d.calls == [SetEnabled(request.extensionId, request.enabled)] &&
            (d.response == Some(SuccessReply) <==> reply.Done?) &&
            (reply.Failed? ==> d.response == Some(ErrorReply(reply.error.message))))
      && (request.action == "getExtensions" ==>
            d.calls == [GetAll] &&
            d.response == Some(if fetch.Fetched? then ExtensionsReply(fetch.list) else ErrorReply(fetch.message)))
      && (request.action != "toggleExtension" && request.action != "getExtensions" ==>
            d.calls == [] && d.response == None && !d.keepOpen)
  {
  }
}
