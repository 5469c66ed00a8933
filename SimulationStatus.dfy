/** The frozen table of simulation status values and the transitions allowed between them. */
module SimulationStatus {
  import opened Wrappers

  /** The five statuses of the `SimulationStatus` enumeration. */
  datatype Status = Idle | Running | Paused | Completed | Failed

  /** The string each status is stored and compared as. */
  function Value(s: Status): string
  {
    match s
    case Idle => "idle"
    case Running => "running"
    case Paused => "paused"
    case Completed => "completed"
    case Failed => "failed"
  }

  /** Reads a status string back; any other string is no status. */
  function Parse(v: string): (r: Option<Status>)
    ensures r.Some? ==> Value(r.value) == v
  {
    if v == "idle" then Some(Idle)
    else if v == "running" then Some(Running)
    else if v == "paused" then Some(Paused)
    else if v == "completed" then Some(Completed)
    else if v == "failed" then Some(Failed)
    else None
  }

  /** `VALID_TRANSITIONS`: for each status value, the values it may move to. */
  const VALID_TRANSITIONS: map<string, seq<string>> := map[
    "idle" := ["running"],
    "running" := ["paused", "completed", "failed"],
    "paused" := ["running", "idle"],
    "completed" := ["idle"],
    "failed" := ["idle"]]

  /** `(VALID_TRANSITIONS[from] || []).includes(to)` over the table's own keys; a `from` naming an
      inherited object member, where the source throws, is answered false here. */
  function IsValidTransition(from: string, to: string): (r: bool)
    ensures r ==> from != to && Parse(from).Some? && Parse(to).Some?
  {
    to in (if from in VALID_TRANSITIONS then VALID_TRANSITIONS[from] else [])
  }

  /** Every status value reads back as itself, and no two statuses share a value. */
  lemma ValueRoundTrip(s: Status)
    ensures Parse(Value(s)) == Some(s)
  {
  }

  /** The table is keyed by exactly the five status values. */
  lemma TableKeysAreStatuses(v: string)
    ensures v in VALID_TRANSITIONS <==> Parse(v).Some?
  {
  }

  /** A string that is no status has no valid transition, and only status values are targets. */
  lemma UnknownStatusHasNoTransition(from: string, to: string)
    ensures Parse(from).None? ==> !IsValidTransition(from, to)
    ensures IsValidTransition(from, to) ==> Parse(to).Some?
  {
  }

  /** An idle simulation may only start running. */
  lemma IdleOnlyStartsRunning(to: string)
    ensures IsValidTransition(Value(Idle), to) <==> to == Value(Running)
  {
  }

  /** A completed or failed simulation may only be reset to idle. */
  lemma TerminalOnlyResetsToIdle(s: Status, to: string)
    requires s == Completed || s == Failed
    ensures IsValidTransition(Value(s), to) <==> to == Value(Idle)
  {
  }

  /** No status may move to itself. */
  lemma NoSelfTransition(v: string)
    ensures !IsValidTransition(v, v)
  {
  }

  /** Running is entered only from idle or paused. */
  lemma RunningEnteredFromIdleOrPaused(from: string)
    ensures IsValidTransition(from, Value(Running)) <==> from == Value(Idle) || from == Value(Paused)
  {
  }

  /** Every status reaches idle in at most two valid steps. */
  lemma IdleWithinTwoSteps(s: Status)
    ensures s == Idle
      || IsValidTransition(Value(s), Value(Idle))
      || exists m :: IsValidTransition(Value(s), Value(m)) && IsValidTransition(Value(m), Value(Idle))
  {
    if s == Running {
      assert IsValidTransition(Value(Running), Value(Paused));
      assert IsValidTransition(Value(Paused), Value(Idle));
    }
  }
}
