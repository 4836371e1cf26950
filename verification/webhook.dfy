/** The guard at the top of the pull-request webhook handler
    (`computeChange` in index.js): only a newly opened or updated pull
    request that is still open goes on to the version check. What follows
    the guard (fetching package.json, the registry lookup, posting statuses)
    is network I/O and is not modelled. */
module Webhook {
  import opened Wrappers

  datatype PullRequest = PullRequest(state: string)

  /** The parts of a `pull_request` webhook payload the guard reads. Either
      may be absent from the payload. */
  datatype PullRequestEvent = PullRequestEvent(action: Option<string>, pullRequest: Option<PullRequest>)

  /** What the guard does with an event: return `false`, let the handler go
      on, or throw because the payload has no pull request to read. */
  datatype GuardOutcome = Ignored | Proceeds | Throws

  /** The actions the handler means to react to. */
  const HandledActions: set<string> := {"synchronize", "opened"}

  /** The property names every plain JavaScript object inherits from
      Object.prototype; looking any of them up yields a truthy value. */
  const ObjectPrototypeNames: set<string> := {
    "constructor", "__proto__", "toString", "toLocaleString", "valueOf",
    "hasOwnProperty", "isPrototypeOf", "propertyIsEnumerable",
    "__defineGetter__", "__defineSetter__", "__lookupGetter__", "__lookupSetter__"
  }

  /** Whether `valid[action]` is truthy for the object literal
      `{ synchronize: 1, opened: 1 }`: an absent action reads the key
      "undefined", which is not there; a present one finds either an own key
      or an inherited one. */
  predicate ActionLookupIsTruthy(action: Option<string>) {
    action.Some? && (action.value in HandledActions || action.value in ObjectPrototypeNames)
  }

  /** The guard as index.js writes it, property lookup included. */
  function GuardAsWritten(e: PullRequestEvent): (r: GuardOutcome)
    ensures r == Proceeds <==> ActionLookupIsTruthy(e.action) && e.pullRequest == Some(PullRequest("open"))
    ensures r == Throws <==> ActionLookupIsTruthy(e.action) && e.pullRequest.None?
  {
    if !ActionLookupIsTruthy(e.action) then Ignored
    else match e.pullRequest
      case None => Throws
      case Some(pr) => if pr.state != "open" then Ignored else Proceeds
  }

  /** The guard as intended: the action must be one of the two handled ones
      and the pull request must be open. The pull request is only read once
      the action has passed. */
  function Guard(e: PullRequestEvent): (r: GuardOutcome)
    ensures r == Proceeds <==>
      e.action.Some? && e.action.value in HandledActions && e.pullRequest == Some(PullRequest("open"))
    ensures r == Throws <==>
      e.action.Some? && e.action.value in HandledActions && e.pullRequest.None?
  {
    if !(e.action.Some? && e.action.value in HandledActions) then Ignored
    else match e.pullRequest
      case None => Throws
      case Some(pr) => if pr.state != "open" then Ignored else Proceeds
  }

  /** For every action that is not an inherited property name (in
      particular every action the hosting service sends), the guard as
      written and the intended guard agree. */
  lemma GuardsAgreeOnOrdinaryActions(e: PullRequestEvent)
    requires e.action.None? || e.action.value !in ObjectPrototypeNames
    ensures GuardAsWritten(e) == Guard(e)
  {
  }

  /** An open pull request whose event action is "constructor" passes the
      guard as written, but not the intended one. */
  lemma GuardAsWrittenAdmitsInheritedName()
    ensures GuardAsWritten(PullRequestEvent(Some("constructor"), Some(PullRequest("open")))) == Proceeds
    ensures Guard(PullRequestEvent(Some("constructor"), Some(PullRequest("open")))) == Ignored
  {
  }
}
