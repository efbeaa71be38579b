/** What the schedule client's lookups promise, stated over the overrides reply. */
module PagerDutyProperties {
  import opened Results
  import opened Text
  import opened Timestamps
  import opened PagerDuty

  /** The override's converted start is later than now. */
  predicate StartsAfter(o: Override, now: string) {
    ConvertTimestamp(o.start).Some? && Less(now, ConvertTimestamp(o.start).value)
  }

  /** o's converted start is no later than p's. */
  predicate StartsNoLater(o: Override, p: Override) {
    ConvertTimestamp(o.start).Some? && ConvertTimestamp(p.start).Some? &&
    LessEq(ConvertTimestamp(o.start).value, ConvertTimestamp(p.start).value)
  }

  /**
   * Timestamps past the earliest upcoming one do not change what `_return_next_shift`
   * returns.
   */
  lemma ExtraTimestampsIgnored(overrides: seq<Override>, timestamps: seq<string>, extra: seq<string>, now: string)
    requires EarliestAfter(timestamps, now).Some?
    requires forall e :: e in extra ==> !Less(now, e) || !Less(e, EarliestAfter(timestamps, now).value)
    ensures NextShift(overrides, timestamps + extra, now) == NextShift(overrides, timestamps, now)
  {
    var all := timestamps + extra;
    var m := EarliestAfter(timestamps, now).value;
    var i :| 0 <= i < |timestamps| && timestamps[i] == m;
    assert all[i] == m;
    var m' := EarliestAfter(all, now).value;
    var j :| 0 <= j < |all| && all[j] == m';
    assert LessEq(m', m);
    if j < |timestamps| {
      assert timestamps[j] == m';
      assert LessEq(m, m');
    } else {
      assert m' in extra by { assert m' == extra[j - |timestamps|]; }
      LessTotal(m, m');
    }
    if m != m' { LessAsymmetric(m', m); }
  }

  /**
   * Override k starts after now, no later than any other upcoming override, and no
   * override before it in the list has the same start.
   */
  predicate FirstEarliest(overrides: seq<Override>, now: string, k: nat) {
    && k < |overrides|
    && StartsAfter(overrides[k], now)
    && (forall j :: 0 <= j < |overrides| && StartsAfter(overrides[j], now) ==> StartsNoLater(overrides[k], overrides[j]))
    && (forall j :: 0 <= j < k ==> overrides[j].start != overrides[k].start)
  }

  /** Service-format starts all convert, and a converted start is upcoming exactly when its override is. */
  lemma ServiceStartsConvert(overrides: seq<Override>, now: string)
    requires forall i :: 0 <= i < |overrides| ==> ColonOffset(overrides[i].start)
    ensures ConvertedStarts(overrides).Some?
    ensures forall i :: 0 <= i < |overrides| ==>
      (StartsAfter(overrides[i], now) <==> Less(now, ConvertedStarts(overrides).value[i]))
  {
    forall i | 0 <= i < |overrides| ensures ConvertTimestamp(overrides[i].start).Some? {
      ConvertThenRebuild(overrides[i].start);
    }
  }

  /**
   * `next_on_call` on service-format starts: it raises exactly when no override starts
   * after now; otherwise it returns the first override, in list order, among those with the
   * earliest upcoming start. It never answers `(None, None, None)`.
   */
  lemma NextOnCallEarliest(overrides: seq<Override>, now: string)
    requires forall i :: 0 <= i < |overrides| ==> ColonOffset(overrides[i].start)
    ensures NextOnCallOutcome(overrides, now) == Raises(EmptyMinimum) <==>
      forall i :: 0 <= i < |overrides| ==> !StartsAfter(overrides[i], now)
    ensures (exists i :: 0 <= i < |overrides| && StartsAfter(overrides[i], now)) ==>
      exists k: nat :: FirstEarliest(overrides, now, k) && NextOnCallOutcome(overrides, now) == Ok(Some(ShiftOf(overrides[k])))
  {
    ServiceStartsConvert(overrides, now);
    var starts := ConvertedStarts(overrides).value;
    if EarliestAfter(starts, now).Some? {
      var m := EarliestAfter(starts, now).value;
      var i0 :| 0 <= i0 < |starts| && starts[i0] == m;
      NextShiftFindsOverride(overrides, starts, now, i0);
      var k := FirstWithStart(overrides, overrides[i0].start).value;
      assert starts[k] == m;
      assert FirstEarliest(overrides, now, k);
    }
  }

  /**
   * Once the earliest upcoming timestamp is the converted start of a service-format
   * override, `_return_next_shift` answers with the first override carrying that start.
   */
  lemma NextShiftFindsOverride(overrides: seq<Override>, timestamps: seq<string>, now: string, i: nat)
    requires i < |overrides| && ColonOffset(overrides[i].start)
    requires EarliestAfter(timestamps, now).Some?
    requires ConvertTimestamp(overrides[i].start) == EarliestAfter(timestamps, now)
    ensures FirstWithStart(overrides, overrides[i].start).Some?
    ensures FirstWithStart(overrides, overrides[i].start).value <= i
    ensures NextShift(overrides, timestamps, now) ==
      Ok(Some(ShiftOf(overrides[FirstWithStart(overrides, overrides[i].start).value])))
  {
    ConvertThenRebuild(overrides[i].start);
  }

  /** The earliest upcoming timestamp is no later than any upcoming member of the list. */
  lemma EarliestBelowMembers(timestamps: seq<string>, now: string, t: string)
    requires t in timestamps && Less(now, t)
    ensures EarliestAfter(timestamps, now).Some? && LessEq(EarliestAfter(timestamps, now).value, t)
  {
    var l :| 0 <= l < |timestamps| && timestamps[l] == t;
  }

  /** Every override named `name` has a service-format start. */
  predicate NamedWellFormed(overrides: seq<Override>, name: string) {
    forall i :: 0 <= i < |overrides| && overrides[i].summary == name ==> ColonOffset(overrides[i].start)
  }

  /** `when_is_on_call(name)` answers `(None, None, None)` when `name` has no override. */
  lemma WhenIsOnCallWithoutOverrides(overrides: seq<Override>, name: string, now: string)
    requires forall i :: 0 <= i < |overrides| ==> overrides[i].summary != name
    ensures WhenIsOnCallOutcome(overrides, name, now) == Ok(None)
  {
    NamedStartsEmpty(overrides, name);
  }

  /** Service-format starts for `name` all convert, so `when_is_on_call` collects its list. */
  lemma NamedStartsDefined(overrides: seq<Override>, name: string)
    requires NamedWellFormed(overrides, name)
    ensures NamedStarts(overrides, name).Some?
  {
    forall i | 0 <= i < |overrides| && overrides[i].summary == name
      ensures ConvertTimestamp(overrides[i].start).Some?
    {
      ConvertThenRebuild(overrides[i].start);
    }
  }

  /** `when_is_on_call(name)` raises when `name` has overrides but none of them is upcoming. */
  lemma WhenIsOnCallNoneUpcoming(overrides: seq<Override>, name: string, now: string)
    requires NamedWellFormed(overrides, name)
    requires exists i :: 0 <= i < |overrides| && overrides[i].summary == name
    requires forall i :: 0 <= i < |overrides| && overrides[i].summary == name ==> !StartsAfter(overrides[i], now)
    ensures WhenIsOnCallOutcome(overrides, name, now) == Raises(EmptyMinimum)
  {
    NamedStartsDefined(overrides, name);
    NamedStartsEmpty(overrides, name);
    NamedStartsMembers(overrides, name);
    var starts := NamedStarts(overrides, name).value;
    forall k | 0 <= k < |starts| ensures !Less(now, starts[k]) {
      assert starts[k] in starts;
      var j :| NamedConv(overrides, name, j, starts[k]);
      assert !StartsAfter(overrides[j], now);
    }
    assert EarliestAfter(starts, now).None?;
  }

  /** Override i is `name`'s, upcoming, and no later than any other upcoming override of `name`. */
  predicate EarliestOf(overrides: seq<Override>, name: string, now: string, i: nat) {
    i < |overrides| && overrides[i].summary == name && StartsAfter(overrides[i], now) &&
    forall j :: 0 <= j < |overrides| && overrides[j].summary == name && StartsAfter(overrides[j], now) ==>
      StartsNoLater(overrides[i], overrides[j])
  }

  /**
   * `when_is_on_call(name)` takes `name`'s earliest upcoming start and returns the first
   * override of the whole list with that start, which may belong to someone else.
   */
  lemma WhenIsOnCallEarliest(overrides: seq<Override>, name: string, now: string)
    requires NamedWellFormed(overrides, name)
    requires exists i :: 0 <= i < |overrides| && overrides[i].summary == name && StartsAfter(overrides[i], now)
    ensures exists i: nat, k: nat ::
      && k <= i
      && EarliestOf(overrides, name, now, i)
      && overrides[k].start == overrides[i].start
      && (forall j :: 0 <= j < k ==> overrides[j].start != overrides[i].start)
      && WhenIsOnCallOutcome(overrides, name, now) == Ok(Some(ShiftOf(overrides[k])))
  {
    var i1 :| 0 <= i1 < |overrides| && overrides[i1].summary == name && StartsAfter(overrides[i1], now);
    NamedStartsDefined(overrides, name);
    var starts := NamedStarts(overrides, name).value;
    NamedStartsMembers(overrides, name);
    assert NamedConv(overrides, name, i1, ConvertTimestamp(overrides[i1].start).value);
    assert ConvertTimestamp(overrides[i1].start).value in starts;
    var m := EarliestAfter(starts, now).value;
    assert m in starts;
    var i0 :| NamedConv(overrides, name, i0, m);
    NextShiftFindsOverride(overrides, starts, now, i0);
    var k := FirstWithStart(overrides, overrides[i0].start).value;
    forall j | 0 <= j < |overrides| && overrides[j].summary == name && StartsAfter(overrides[j], now)
      ensures StartsNoLater(overrides[i0], overrides[j])
    {
      var c := ConvertTimestamp(overrides[j].start).value;
      assert NamedConv(overrides, name, j, c);
      assert c in starts;
      EarliestBelowMembers(starts, now, c);
    }
    assert EarliestOf(overrides, name, now, i0);
    assert starts != [];
    assert WhenIsOnCallOutcome(overrides, name, now) == NextShift(overrides, starts, now);
  }

  /**
   * When nobody else's override starts together with one of `name`'s, the shift
   * `when_is_on_call(name)` answers with is one of `name`'s.
   */
  lemma WhenIsOnCallAnswersForName(overrides: seq<Override>, name: string, now: string)
    requires NamedWellFormed(overrides, name)
    requires forall i, j ::
      0 <= i < |overrides| && 0 <= j < |overrides| && overrides[i].summary == name && overrides[j].start == overrides[i].start
      ==> overrides[j].summary == name
    ensures WhenIsOnCallOutcome(overrides, name, now).Ok? && WhenIsOnCallOutcome(overrides, name, now).value.Some? ==>
      WhenIsOnCallOutcome(overrides, name, now).value.value.summary == name
  {
    if i :| 0 <= i < |overrides| && overrides[i].summary == name && StartsAfter(overrides[i], now) {
      WhenIsOnCallEarliest(overrides, name, now);
      var e: nat, k: nat :| k <= e && EarliestOf(overrides, name, now, e) && overrides[k].start == overrides[e].start &&
        WhenIsOnCallOutcome(overrides, name, now) == Ok(Some(ShiftOf(overrides[k])));
    } else if i :| 0 <= i < |overrides| && overrides[i].summary == name {
      WhenIsOnCallNoneUpcoming(overrides, name, now);
    } else {
      WhenIsOnCallWithoutOverrides(overrides, name, now);
    }
  }

  /**
   * Matching back against the whole list: when another engineer's override comes first
   * with the same start, `when_is_on_call(name)` answers with that engineer's shift.
   */
  lemma WhenIsOnCallSharedStart(other: Override, own: Override, name: string, now: string)
    requires other.start == own.start && other.summary != name && own.summary == name
    requires ColonOffset(own.start) && StartsAfter(own, now)
    ensures WhenIsOnCallOutcome([other, own], name, now) == Ok(Some(ShiftOf(other)))
  {
    var overrides := [other, own];
    ConvertThenRebuild(own.start);
    var c := ConvertTimestamp(own.start).value;
    assert overrides[..0] == [];
    NamedStartsStep(overrides, name, 0, []);
    NamedStartsStep(overrides, name, 1, []);
    assert overrides[1] == own && [] + [c] == [c];
    assert overrides[..2] == overrides;
    assert NamedStarts(overrides, name) == Some([c]);
    assert EarliestAfter([c], now) == Some(c);
    assert FirstWithStart(overrides, own.start) == Some(0);
  }

  /** `lookup_user_name` sends one query for every spelling of an email that differs only in case. */
  lemma UserQueryIgnoresCase(a: string, b: string)
    ensures UserQuery(a) == UserQuery(b) <==> SameIgnoringCase(a, b)
  {
    LowerIdentifiesCase(a, b);
    if UserQuery(a) == UserQuery(b) {
      assert Lower(a) == UserQuery(a)[7..] == UserQuery(b)[7..] == Lower(b);
    }
  }
}
