/**
 * The schedule client, `PagerDutySchedule`. The service's decoded JSON replies and the
 * current time (already formatted `%Y-%m-%dT%H:%M:%S%z`) are ordinary inputs.
 */
module PagerDuty {
  import opened Results
  import opened Text
  import opened Timestamps

  /** One record of `response['overrides']`: `start`, `end` and `user.summary`. */
  datatype Override = Override(start: string, end: string, summary: string)

  /** The `(summary, start, end)` triple a next-shift lookup returns. */
  datatype Shift = Shift(summary: string, start: string, end: string)

  function ShiftOf(o: Override): Shift { Shift(o.summary, o.start, o.end) }

  /** One record of a `users` reply: an empty dict, or one holding `id` and `name`. */
  datatype UserRecord = EmptyRecord | UserRecord(id: string, name: string)

  /** One record of a `schedules` reply. */
  datatype ScheduleRecord = ScheduleRecord(id: string, summary: string)

  // ---------------------------------------------------------------------------
  // `_return_next_shift`

  /** `min(ts for ts in timestamps if ts > now)`, None where Python's `min` raises. */
  function EarliestAfter(timestamps: seq<string>, now: string): (r: Option<string>)
    ensures r.Some? <==> exists i :: 0 <= i < |timestamps| && Less(now, timestamps[i])
    ensures r.Some? ==> r.value in timestamps && Less(now, r.value)
    ensures r.Some? ==> forall i :: 0 <= i < |timestamps| && Less(now, timestamps[i]) ==> LessEq(r.value, timestamps[i])
    decreases |timestamps|
  {
    if timestamps == [] then None
    else
      var first := timestamps[0];
      var rest := EarliestAfter(timestamps[1..], now);
      assert forall i :: 1 <= i < |timestamps| ==> timestamps[i] == timestamps[1..][i - 1];
      if !Less(now, first) then rest
      else if rest.None? then Some(first)
      else
        LessTotal(rest.value, first);
        if Less(rest.value, first) then rest
        else
          assert forall i :: 1 <= i < |timestamps| && Less(now, timestamps[i]) ==> LessEq(first, timestamps[i]) by {
            forall i | 1 <= i < |timestamps| && Less(now, timestamps[i]) ensures LessEq(first, timestamps[i]) {
              assert LessEq(rest.value, timestamps[i]);
              if first != rest.value && rest.value != timestamps[i] {
                LessTransitive(first, rest.value, timestamps[i]);
              }
            }
          }
          Some(first)
  }

  /** The index of the first override, in list order, whose `start` is `start`. */
  function FirstWithStart(overrides: seq<Override>, start: string): (r: Option<nat>)
    ensures r.Some? ==> r.value < |overrides| && overrides[r.value].start == start
    ensures r.Some? ==> forall j :: 0 <= j < r.value ==> overrides[j].start != start
    ensures r.None? ==> forall j :: 0 <= j < |overrides| ==> overrides[j].start != start
    decreases |overrides|
  {
    if overrides == [] then None
    else if overrides[0].start == start then Some(0)
    else
      match FirstWithStart(overrides[1..], start)
      case None => None
      case Some(k) => Some(k + 1)
  }

  /** What `_return_next_shift(overrides, timestamps)` returns or raises at time `now`. */
  function NextShift(overrides: seq<Override>, timestamps: seq<string>, now: string): Outcome<Option<Shift>> {
    match EarliestAfter(timestamps, now)
    case None => Raises(EmptyMinimum)
    case Some(earliest) =>
      match RebuildTimestamp(earliest)
      case None => Raises(PatternMismatch)
      case Some(start) =>
        match FirstWithStart(overrides, start)
        case None => Ok(None)
        case Some(k) => Ok(Some(ShiftOf(overrides[k])))
  }

  // ---------------------------------------------------------------------------
  // The start lists `next_on_call` and `when_is_on_call` build

  /** `next_on_call`'s `shift_starts`: every override's converted start, in order; None if one fails. */
  function ConvertedStarts(overrides: seq<Override>): (r: Option<seq<string>>)
    ensures r.Some? <==> forall i :: 0 <= i < |overrides| ==> ConvertTimestamp(overrides[i].start).Some?
    ensures r.Some? ==> |r.value| == |overrides|
    ensures r.Some? ==> forall i :: 0 <= i < |overrides| ==> ConvertTimestamp(overrides[i].start) == Some(r.value[i])
    decreases |overrides|
  {
    if overrides == [] then Some([])
    else
      var n := |overrides| - 1;
      assert forall i :: 0 <= i < n ==> overrides[..n][i] == overrides[i];
      match ConvertedStarts(overrides[..n])
      case None => None
      case Some(init) =>
        match ConvertTimestamp(overrides[n].start)
        case None => None
        case Some(t) => Some(init + [t])
  }

  /**
   * `when_is_on_call`'s `shift_starts`: the converted starts of the overrides whose
   * `user.summary` is `name`; None if one of those fails to convert.
   */
  function NamedStarts(overrides: seq<Override>, name: string): (r: Option<seq<string>>)
    ensures r.Some? <==>
      forall i :: 0 <= i < |overrides| && overrides[i].summary == name ==> ConvertTimestamp(overrides[i].start).Some?
    decreases |overrides|
  {
    if overrides == [] then Some([])
    else
      var n := |overrides| - 1;
      assert forall i :: 0 <= i < n ==> overrides[..n][i] == overrides[i];
      match NamedStarts(overrides[..n], name)
      case None => None
      case Some(init) =>
        if overrides[n].summary != name then Some(init)
        else
          match ConvertTimestamp(overrides[n].start)
          case None => None
          case Some(t) => Some(init + [t])
  }

  /** Override i is `name`'s and its start converts to t. */
  predicate NamedConv(overrides: seq<Override>, name: string, i: int, t: string) {
    0 <= i < |overrides| && overrides[i].summary == name && ConvertTimestamp(overrides[i].start) == Some(t)
  }

  /** `when_is_on_call`'s list holds exactly the converted starts of the overrides named `name`. */
  lemma {:induction false} NamedStartsMembers(overrides: seq<Override>, name: string)
    requires NamedStarts(overrides, name).Some?
    ensures forall t :: t in NamedStarts(overrides, name).value <==> exists i :: NamedConv(overrides, name, i, t)
    decreases |overrides|
  {
    if overrides != [] {
      var n := |overrides| - 1;
      var init := overrides[..n];
      assert forall i :: 0 <= i < n ==> init[i] == overrides[i];
      NamedStartsMembers(init, name);
      var prev := NamedStarts(init, name).value;
      var r := NamedStarts(overrides, name).value;
      var named := overrides[n].summary == name;
      assert !named ==> r == prev;
      assert named ==> r == prev + [ConvertTimestamp(overrides[n].start).value];
      forall t ensures t in r <==> exists i :: NamedConv(overrides, name, i, t) {
        if t in prev {
          var i :| NamedConv(init, name, i, t);
          assert NamedConv(overrides, name, i, t);
        } else if t in r {
          assert NamedConv(overrides, name, n, t);
        }
        if i :| NamedConv(overrides, name, i, t) {
          if i < n {
            assert NamedConv(init, name, i, t);
          }
        }
      }
    }
  }

  /** The list is empty exactly when no override is `name`'s. */
  lemma NamedStartsEmpty(overrides: seq<Override>, name: string)
    requires NamedStarts(overrides, name).Some?
    ensures NamedStarts(overrides, name).value == [] <==> forall i :: 0 <= i < |overrides| ==> overrides[i].summary != name
  {
    NamedStartsMembers(overrides, name);
    if i :| 0 <= i < |overrides| && overrides[i].summary == name {
      assert NamedConv(overrides, name, i, ConvertTimestamp(overrides[i].start).value);
    }
  }

  /** What `next_on_call` returns or raises, given the overrides reply and `now`. */
  function NextOnCallOutcome(overrides: seq<Override>, now: string): Outcome<Option<Shift>> {
    match ConvertedStarts(overrides)
    case None => Raises(PatternMismatch)
    case Some(starts) => NextShift(overrides, starts, now)
  }

  /** What `when_is_on_call(name)` returns or raises, given the overrides reply and `now`. */
  function WhenIsOnCallOutcome(overrides: seq<Override>, name: string, now: string): Outcome<Option<Shift>> {
    match NamedStarts(overrides, name)
    case None => Raises(PatternMismatch)
    case Some(starts) => if |starts| == 0 then Ok(None) else NextShift(overrides, starts, now)
  }

  // ---------------------------------------------------------------------------
  // First-result rules

  /** `who_is_on_call_now`, given the `users` of the one-minute window. */
  function WhoIsOnCallNow(users: seq<UserRecord>): (r: Outcome<Option<string>>)
    ensures r == Ok(None) <==> users == []
    ensures r.Ok? && r.value.Some? ==> users[0].UserRecord? && r.value.value == users[0].name
    ensures users != [] && users[0].EmptyRecord? ==> r == Raises(MissingName)
    ensures users != [] && users[0].UserRecord? ==> r == Ok(Some(users[0].name))
  {
    if |users| == 0 then Ok(None)
    else
      match users[0]
      case EmptyRecord => Raises(MissingName)
      case UserRecord(_, name) => Ok(Some(name))
  }

  /** `lookup_user_name`, given the `users` reply to its query: `(id, name)` or `(None, None)`. */
  function LookupUserName(users: seq<UserRecord>): (r: Outcome<Option<(string, string)>>)
    ensures r == Raises(NoUsers) <==> users == []
    ensures r == Ok(None) <==> users != [] && users[0] == EmptyRecord
    ensures r.Ok? && r.value.Some? ==> users[0] == UserRecord(r.value.value.0, r.value.value.1)
    ensures users != [] && users[0].UserRecord? ==> r == Ok(Some((users[0].id, users[0].name)))
  {
    if |users| == 0 then Raises(NoUsers)
    else
      match users[0]
      case EmptyRecord => Ok(None)
      case UserRecord(id, name) => Ok(Some((id, name)))
  }

  /** The options `set_schedule` sends: the name with every space turned into `%`. */
  function ScheduleQuery(scheduleName: string): (q: string)
    ensures StartsWith(q, "?query=") && |q| == |"?query="| + |scheduleName|
    ensures forall k :: |"?query="| <= k < |q| ==> q[k] != ' '
    ensures forall k :: 0 <= k < |scheduleName| && scheduleName[k] != ' ' ==> q[|"?query="| + k] == scheduleName[k]
    ensures forall k :: 0 <= k < |scheduleName| && scheduleName[k] == ' ' ==> q[|"?query="| + k] == '%'
  {
    "?query=" + SpacesToPercent(scheduleName)
  }

  /** The options `lookup_user_name` sends: the lower-cased email. */
  function UserQuery(email: string): (q: string)
    ensures StartsWith(q, "?query=") && |q| == |"?query="| + |email|
    ensures forall k :: |"?query="| <= k < |q| ==> !IsUpper(q[k])
    ensures forall k :: 0 <= k < |email| ==> q[|"?query="| + k] == LowerChar(email[k])
  {
    "?query=" + Lower(email)
  }

  /** One more override extends `next_on_call`'s list by its converted start. */
  lemma ConvertedStartsStep(overrides: seq<Override>, i: nat, starts: seq<string>)
    requires i < |overrides| && ConvertedStarts(overrides[..i]) == Some(starts)
    ensures ConvertTimestamp(overrides[i].start).None? ==> ConvertedStarts(overrides[..i + 1]).None?
    ensures ConvertTimestamp(overrides[i].start).Some? ==>
      ConvertedStarts(overrides[..i + 1]) == Some(starts + [ConvertTimestamp(overrides[i].start).value])
  {
    assert overrides[..i + 1][..i] == overrides[..i];
  }

  /** One more override extends `when_is_on_call`'s list when it is the named engineer's. */
  lemma NamedStartsStep(overrides: seq<Override>, name: string, i: nat, starts: seq<string>)
    requires i < |overrides| && NamedStarts(overrides[..i], name) == Some(starts)
    ensures overrides[i].summary != name ==> NamedStarts(overrides[..i + 1], name) == Some(starts)
    ensures overrides[i].summary == name && ConvertTimestamp(overrides[i].start).None? ==>
      NamedStarts(overrides[..i + 1], name).None?
    ensures overrides[i].summary == name && ConvertTimestamp(overrides[i].start).Some? ==>
      NamedStarts(overrides[..i + 1], name) == Some(starts + [ConvertTimestamp(overrides[i].start).value])
  {
    assert overrides[..i + 1][..i] == overrides[..i];
  }

  // ---------------------------------------------------------------------------

  /** The connection object; `set_schedule` is the one operation that changes it. */
  class PagerDutySchedule {
    const apiUrl: string
    const apiVersion: nat
    const token: string
    /** The configured time zone's name; the clock reading it feeds is an input here. */
    const timezone: string
    var scheduleId: Option<string>
    var scheduleName: Option<string>

    constructor (token: string, timezone: string)
      ensures this.token == token && this.timezone == timezone
      ensures apiUrl == "https://api.pagerduty.com" && apiVersion == 2
      ensures scheduleId == None && scheduleName == None
    {
      apiUrl := "https://api.pagerduty.com";
      apiVersion := 2;
      this.token := token;
      this.timezone := timezone;
      scheduleId := None;
      scheduleName := None;
    }

    /**
     * `set_schedule`: `query` is the options string it sends and `schedules` the
     * `schedules` list of the reply. No match raises and leaves the object alone.
     */
    method SetSchedule(name: string, schedules: seq<ScheduleRecord>) returns (query: string, r: Outcome<()>)
      modifies this`scheduleId
      ensures query == ScheduleQuery(name)
      ensures schedules == [] ==> r == Raises(ScheduleNotFound) && scheduleId == old(scheduleId)
      ensures schedules != [] ==> r == Ok(()) && scheduleId == Some(schedules[0].id)
    {
      query := ScheduleQuery(name);
      if |schedules| == 0 {
        return query, Raises(ScheduleNotFound);
      }
      scheduleId := Some(schedules[0].id);
      r := Ok(());
    }

    /** `_return_next_shift`: the earliest upcoming start, rebuilt, looked up in list order. */
    method ReturnNextShift(overrides: seq<Override>, timestamps: seq<string>, now: string)
      returns (r: Outcome<Option<Shift>>)
      ensures r == NextShift(overrides, timestamps, now)
    {
      var nextShiftStart := EarliestAfter(timestamps, now);
      if nextShiftStart.None? {
        return Raises(EmptyMinimum);
      }
      var rebuilt := RebuildTimestamp(nextShiftStart.value);
      if rebuilt.None? {
        return Raises(PatternMismatch);
      }
      var i := 0;
      while i < |overrides|
        invariant 0 <= i <= |overrides|
        invariant forall j :: 0 <= j < i ==> overrides[j].start != rebuilt.value
      {
        if overrides[i].start == rebuilt.value {
          return Ok(Some(ShiftOf(overrides[i])));
        }
        i := i + 1;
      }
      return Ok(None);
    }

    /** `next_on_call`, given the overrides of the 144000-minute window. */
    method NextOnCall(overrides: seq<Override>, now: string) returns (r: Outcome<Option<Shift>>)
      ensures r == NextOnCallOutcome(overrides, now)
    {
      var shiftStarts: seq<string> := [];
      for i := 0 to |overrides|
        invariant ConvertedStarts(overrides[..i]) == Some(shiftStarts)
      {
        ConvertedStartsStep(overrides, i, shiftStarts);
        var formatTime := ConvertTimestamp(overrides[i].start);
        if formatTime.None? {
          return Raises(PatternMismatch);
        }
        shiftStarts := shiftStarts + [formatTime.value];
      }
      assert overrides[..|overrides|] == overrides;
      r := ReturnNextShift(overrides, shiftStarts, now);
    }

    /** `when_is_on_call(engineerName)`, given the overrides of the 144000-minute window. */
    method WhenIsOnCall(overrides: seq<Override>, engineerName: string, now: string) returns (r: Outcome<Option<Shift>>)
      ensures r == WhenIsOnCallOutcome(overrides, engineerName, now)
    {
      var shiftStarts: seq<string> := [];
      for i := 0 to |overrides|
        invariant NamedStarts(overrides[..i], engineerName) == Some(shiftStarts)
      {
        NamedStartsStep(overrides, engineerName, i, shiftStarts);
        if overrides[i].summary == engineerName {
          var formatTime := ConvertTimestamp(overrides[i].start);
          if formatTime.None? {
            return Raises(PatternMismatch);
          }
          shiftStarts := shiftStarts + [formatTime.value];
        }
      }
      assert overrides[..|overrides|] == overrides;
      if |shiftStarts| == 0 {
        return Ok(None);
      }
      r := ReturnNextShift(overrides, shiftStarts, now);
    }
  }
}
