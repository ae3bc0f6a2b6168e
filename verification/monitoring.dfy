/** Remote-resource monitoring (lib/icl-remote-resource-monitoring.c): the
    monitoring handle a remote resource holds, the ALIVE / LOST_SIGNAL rule
    applied to each GET response, the presence rule that triggers a fresh
    poll, and starting and stopping. Timers, GET requests and presence
    subscriptions are collaborators: their outcomes and identifiers are
    parameters. */
module Monitoring {
  import opened Wrappers

  /** IOTCON_RESPONSE_RESULT_OK (the enum is not part of this model; the
      comparison only needs its place in the order). */
  const ResponseResultOk: int := 0

  /** iotcon_remote_resource_state_e, with `Unset` for the zero the new
      handle is filled with. The enum's values are not part of this model;
      both named states are taken to be non-zero, so the zero is neither. */
  datatype ResourceState = Unset | Alive | LostSignal

  /** iotcon_presence_result_e and iotcon_presence_trigger_e. */
  datatype PresenceResult = PresenceOk | PresenceStopped | PresenceTimeout
  datatype PresenceTrigger = ResourceCreated | ResourceUpdated | ResourceDestroyed

  /** struct icl_remote_resource_monitoring: the last state reported, whether
      a state-changed callback is set, the poll timer and the presence
      subscription. */
  datatype Monitor = Monitor(state: ResourceState, hasCb: bool, timer: nat, presence: nat)

  /** The state a GET response shows. */
  function StateOf(responseResult: int): (s: ResourceState)
    ensures s == Alive <==> ResponseResultOk <= responseResult
    ensures s != Unset
  {
    if ResponseResultOk <= responseResult then Alive else LostSignal
  }

  /** _monitoring_get_cb: the handle afterwards and the state passed to the
      callback, if it fired. Without a handle, on an error or when the
      result cannot be read nothing happens; a state equal to the stored
      one changes nothing either. */
  function GetResponse(h: Option<Monitor>, err: Status, responseResult: Option<int>): (res: (Option<Monitor>, Option<ResourceState>))
    ensures res.0.Some? <==> h.Some?
    ensures h.None? || err != Ok || responseResult.None? ==> res == (h, None)
    ensures res.0.Some? ==> res.0.value.(state := h.value.state) == h.value
  {
    if h.None? || err != Ok || responseResult.None? then (h, None)
    else
      var m := h.value;
      var s := StateOf(responseResult.value);
      if s == m.state then (h, None)
      else (Some(m.(state := s)), if m.hasCb then Some(s) else None)
  }

  /** A response with a readable result stores its state, and the callback
      fires, with that state, exactly when the state differs from the one
      stored before. */
  lemma GetResponseFiresIffChanged(m: Monitor, result: int)
    requires m.hasCb
    ensures var (h, fired) := GetResponse(Some(m), Ok, Some(result));
      && h == Some(m.(state := StateOf(result)))
      && (fired.Some? <==> StateOf(result) != m.state)
      && (fired.Some? ==> fired.value == StateOf(result))
  {
  }

  /** The same response twice fires at most once. */
  lemma GetResponseSettles(m: Monitor, result: int)
    ensures var h := GetResponse(Some(m), Ok, Some(result)).0;
      GetResponse(h, Ok, Some(result)) == (h, None)
  {
  }

  /** _monitoring_presence_cb: whether a fresh poll is started, and the
      handle with the new poll timer `newTimer`. A poll happens only when
      the presence result is not OK or the trigger says the resource was
      destroyed, and the time interval could be read. */
  function PresenceResponse(h: Option<Monitor>, err: Status, result: Option<PresenceResult>,
                            trigger: Option<PresenceTrigger>, interval: Option<int>, newTimer: nat): (res: (Option<Monitor>, bool))
    ensures res.1 <==> (h.Some? && err == Ok && result.Some?
      && (result.value == PresenceOk ==> trigger == Some(ResourceDestroyed))
      && interval.Some?)
    ensures !res.1 ==> res.0 == h
    ensures res.1 ==> res.0 == Some(h.value.(timer := newTimer))
  {
    if h.None? || err != Ok || result.None? then (h, false)
    else if result.value == PresenceOk && (trigger.None? || trigger.value != ResourceDestroyed) then (h, false)
    else if interval.None? then (h, false)
    else (Some(h.value.(timer := newTimer)), true)
  }

  /** iotcon_remote_resource_start_monitoring. `hasCb` says whether a
      callback was given; `interval`, `hostAddress`, `connectivity` and
      `addPresence` are the outcomes of the calls made after the handle is
      allocated, in that order; `timer` and `presence` are the identifiers
      those calls hand out. Any failure after allocation drops the handle
      again. */
  function StartMonitoring(h: Option<Monitor>, hasCb: bool, interval: Status, hostAddress: Status,
                           connectivity: Status, addPresence: Status, timer: nat, presence: nat): (res: (Option<Monitor>, Status))
    ensures !hasCb ==> res == (h, InvalidParameter)
    ensures hasCb && h.Some? ==> res == (h, Already)
    ensures res.1 != Ok ==> res.0 == h
    ensures res.1 == Ok <==> (hasCb && h.None? && interval == Ok && hostAddress == Ok
      && connectivity == Ok && addPresence == Ok)
    ensures res.1 == Ok ==> res.0 == Some(Monitor(Unset, true, timer, presence))
  {
    if !hasCb then (h, InvalidParameter)
    else if h.Some? then (h, Already)
    else
      var blank := Monitor(Unset, false, 0, 0);
      var withCb := blank.(hasCb := true);
      if interval != Ok then (None, interval)
      else
        var polling := withCb.(timer := timer);
        if hostAddress != Ok then (None, hostAddress)
        else if connectivity != Ok then (None, connectivity)
        else if addPresence != Ok then (None, addPresence)
        else (Some(polling.(presence := presence)), Ok)
  }

  /** iotcon_remote_resource_stop_monitoring: without a handle the call is
      refused; when the presence subscription cannot be removed the handle
      is kept; otherwise it is dropped. */
  function StopMonitoring(h: Option<Monitor>, removePresence: Status): (res: (Option<Monitor>, Status))
    ensures h.None? ==> res == (None, InvalidParameter)
    ensures h.Some? && removePresence != Ok ==> res == (h, removePresence)
    ensures res.1 == Ok <==> h.Some? && removePresence == Ok
    ensures res.1 == Ok ==> res.0.None?
  {
    if h.None? then (h, InvalidParameter)
    else if removePresence != Ok then (h, removePresence)
    else (None, Ok)
  }

  /** Start then stop returns to no handle; a second start while monitoring
      is refused with ALREADY and keeps the running handle; a stop that
      fails keeps monitoring going. */
  lemma MonitoringLifecycle(timer: nat, presence: nat, timer2: nat, presence2: nat, failure: Status)
    requires failure != Ok
    ensures var (h, st) := StartMonitoring(None, true, Ok, Ok, Ok, Ok, timer, presence);
      && st == Ok && h.Some?
      && StartMonitoring(h, true, Ok, Ok, Ok, Ok, timer2, presence2) == (h, Already)
      && StopMonitoring(h, Ok) == (None, Ok)
      && StopMonitoring(h, failure) == (h, failure)
      && StopMonitoring(StopMonitoring(h, Ok).0, Ok) == (None, InvalidParameter)
  {
  }

  /** Responses leave a started monitor running with its timer and
      subscription; only the stored state moves, and only between the two
      named states once a response has been seen. */
  lemma ResponsesKeepMonitor(m: Monitor, err: Status, result: Option<int>)
    requires m.state != Unset
    ensures var h := GetResponse(Some(m), err, result).0;
      h.Some? && h.value.timer == m.timer && h.value.presence == m.presence && h.value.state != Unset
  {
  }
}
