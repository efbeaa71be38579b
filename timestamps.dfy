/**
 * The two pieces of string surgery the schedule client performs on timestamps.
 * The service answers with offsets written `+01:00`; its filter format, and the
 * strings the client compares, write them `+0100`.
 */
module Timestamps {
  import opened Results
  import opened Text

  /** `\+\d{2}` starts at index p of ts. */
  predicate OffsetAt(ts: string, p: nat) {
    p + 3 <= |ts| && ts[p] == '+' && IsDigit(ts[p + 1]) && IsDigit(ts[p + 2])
  }

  /** Group 1 of the pattern can end after the `+HH` at p; with `colon`, the pattern also wants a `:` next. */
  predicate Fits(ts: string, p: nat, colon: bool) {
    OffsetAt(ts, p) && (colon ==> p + 3 < |ts| && ts[p + 3] == ':')
  }

  /**
   * The lazy `.*?` in front of the offset: the first index from `from` on where the
   * pattern fits, without the `.*?` running over a line break.
   */
  function FindOffset(ts: string, from: nat, colon: bool): (r: Option<nat>)
    requires from <= |ts|
    ensures r.Some? ==> from <= r.value < |ts| && Fits(ts, r.value, colon) && NewlineFree(ts, from, r.value)
    ensures r.Some? ==> forall q :: from <= q < r.value ==> !Fits(ts, q, colon)
    ensures r.None? ==> forall q :: from <= q < |ts| && NewlineFree(ts, from, q) ==> !Fits(ts, q, colon)
    decreases |ts| - from
  {
    if from == |ts| then None
    else if Fits(ts, from, colon) then Some(from)
    else if ts[from] == '\n' then None
    else FindOffset(ts, from + 1, colon)
  }

  /**
   * `_convert_timestamp`: `re.match('(.*?\+\d{2}):(.*)', ts)` and the two groups joined,
   * which drops the colon after the first `+HH`. None when the pattern does not match.
   */
  function ConvertTimestamp(ts: string): Option<string> {
    match FindOffset(ts, 0, true)
    case None => None
    case Some(p) => Some(ts[..p + 3] + Line(ts[p + 4..]))
  }

  /** The rebuild in `_return_next_shift`: `re.match('(.*?\+\d{2})(.*)', ts)` joined with a `:`. */
  function RebuildTimestamp(ts: string): Option<string> {
    match FindOffset(ts, 0, false)
    case None => None
    case Some(p) => Some(ts[..p + 3] + ":" + Line(ts[p + 3..]))
  }

  /** A one-line timestamp whose first `+HH` is followed by a colon, as the service writes them. */
  predicate ColonOffset(ts: string) {
    NewlineFree(ts, 0, |ts|) && FindOffset(ts, 0, false).Some? && Fits(ts, FindOffset(ts, 0, false).value, true)
  }

  /** A one-line timestamp with a `+HH` somewhere. */
  predicate PlusOffset(ts: string) {
    NewlineFree(ts, 0, |ts|) && FindOffset(ts, 0, false).Some?
  }

  /** t is ts without the colon at p + 3, where p is the first `+HH:` of ts. */
  predicate ColonRemovedAt(ts: string, t: string, p: nat) {
    Fits(ts, p, true) && (forall q :: 0 <= q < p ==> !Fits(ts, q, true)) && t == ts[..p + 3] + ts[p + 4..]
  }

  /** The first fitting index is found, whichever it is. */
  lemma FindOffsetFirst(ts: string, colon: bool, p: nat)
    requires Fits(ts, p, colon) && NewlineFree(ts, 0, p)
    requires forall q :: 0 <= q < p ==> !Fits(ts, q, colon)
    ensures FindOffset(ts, 0, colon) == Some(p)
  {
  }

  /**
   * Conversion removes exactly one character, the colon after the first `+HH:`; it fails
   * exactly when no `+HH:` occurs before the first line break.
   */
  lemma ConvertRemovesColon(ts: string)
    requires NewlineFree(ts, 0, |ts|)
    ensures ConvertTimestamp(ts).Some? ==>
      |ConvertTimestamp(ts).value| == |ts| - 1 && exists p: nat :: ColonRemovedAt(ts, ConvertTimestamp(ts).value, p)
    ensures ConvertTimestamp(ts).None? <==> forall q :: 0 <= q < |ts| ==> !Fits(ts, q, true)
  {
    var r := FindOffset(ts, 0, true);
    if r.Some? {
      var p := r.value;
      LineOfNewlineFree(ts[p + 4..]);
      assert ColonRemovedAt(ts, ConvertTimestamp(ts).value, p);
    }
  }

  /** Conversion at the first `+HH:` of a one-line string drops the colon there. */
  lemma ConvertAt(ts: string, p: nat)
    requires NewlineFree(ts, 0, |ts|) && Fits(ts, p, true)
    requires forall q :: 0 <= q < p ==> !Fits(ts, q, true)
    ensures ConvertTimestamp(ts) == Some(ts[..p + 3] + ts[p + 4..])
  {
    FindOffsetFirst(ts, true, p);
    LineOfNewlineFree(ts[p + 4..]);
  }

  /** The rebuild at the first `+HH` of a one-line string puts a colon after it. */
  lemma RebuildAt(t: string, p: nat)
    requires NewlineFree(t, 0, |t|) && Fits(t, p, false)
    requires forall q :: 0 <= q < p ==> !Fits(t, q, false)
    ensures RebuildTimestamp(t) == Some(t[..p + 3] + ":" + t[p + 3..])
  {
    FindOffsetFirst(t, false, p);
    LineOfNewlineFree(t[p + 3..]);
  }

  /** A string is what comes before index i, the character at i, and what comes after. */
  lemma SplitAround(s: string, i: nat)
    requires i < |s|
    ensures s == s[..i] + [s[i]] + s[i + 1..]
  {
    assert s[..i + 1] == s[..i] + [s[i]];
    assert s == s[..i + 1] + s[i + 1..];
  }

  /** Rebuilding a converted timestamp gives back the service's string. */
  lemma {:induction false} ConvertThenRebuild(ts: string)
    requires ColonOffset(ts)
    ensures ConvertTimestamp(ts).Some?
    ensures RebuildTimestamp(ConvertTimestamp(ts).value) == Some(ts)
  {
    var p := FindOffset(ts, 0, false).value;
    forall q | 0 <= q < p ensures !Fits(ts, q, true) {
      assert !Fits(ts, q, false);
    }
    ConvertAt(ts, p);
    var t := ts[..p + 3] + ts[p + 4..];
    assert forall k :: 0 <= k < p + 3 ==> t[k] == ts[k];
    assert forall k :: p + 3 <= k < |t| ==> t[k] == ts[k + 1];
    forall q | 0 <= q < p ensures !Fits(t, q, false) {
      assert !Fits(ts, q, false);
    }
    RebuildAt(t, p);
    assert t[..p + 3] == ts[..p + 3];
    assert t[p + 3..] == ts[p + 4..];
    SplitAround(ts, p + 3);
  }

  /** Putting a colon after the first `+HH` of t makes that `+HH:` the first one. */
  lemma ColonInserted(t: string, p: nat, ts: string)
    requires NewlineFree(t, 0, |t|) && Fits(t, p, false)
    requires forall q :: 0 <= q < p ==> !Fits(t, q, false)
    requires ts == t[..p + 3] + ":" + t[p + 3..]
    ensures NewlineFree(ts, 0, |ts|) && Fits(ts, p, true)
    ensures forall q :: 0 <= q < p ==> !Fits(ts, q, true)
    ensures ts[..p + 3] == t[..p + 3] && ts[p + 4..] == t[p + 3..]
  {
    assert forall k :: 0 <= k < p + 3 ==> ts[k] == t[k];
    assert forall k :: p + 4 <= k < |ts| ==> ts[k] == t[k - 1];
    assert ts[p + 3] == ':';
    forall q | 0 <= q < p ensures !Fits(ts, q, true) {
      assert !Fits(t, q, false);
    }
  }

  /** Converting the colon back out of t, rebuilt at its first `+HH` p, gives t. */
  lemma ConvertRebuiltAt(t: string, p: nat, ts: string)
    requires NewlineFree(t, 0, |t|) && Fits(t, p, false)
    requires forall q :: 0 <= q < p ==> !Fits(t, q, false)
    requires ts == t[..p + 3] + ":" + t[p + 3..]
    ensures ConvertTimestamp(ts) == Some(t)
  {
    ColonInserted(t, p, ts);
    ConvertAt(ts, p);
    assert ts[..p + 3] + ts[p + 4..] == t[..p + 3] + t[p + 3..];
    assert t == t[..p + 3] + t[p + 3..];
  }

  /** Converting a rebuilt timestamp gives back the filter-format string. */
  lemma {:induction false} RebuildThenConvert(t: string)
    requires PlusOffset(t)
    ensures RebuildTimestamp(t).Some?
    ensures ConvertTimestamp(RebuildTimestamp(t).value) == Some(t)
  {
    var p := FindOffset(t, 0, false).value;
    RebuildAt(t, p);
    ConvertRebuiltAt(t, p, t[..p + 3] + ":" + t[p + 3..]);
  }

  // ---------------------------------------------------------------------------
  // The `%Y-%m-%dT%H:%M:%S` timestamps the service sends.

  /** `YYYY-MM-DDTHH:MM:SS`, the part before the offset. */
  predicate DateTimePart(ts: string) {
    |ts| >= 19 &&
    IsDigit(ts[0]) && IsDigit(ts[1]) && IsDigit(ts[2]) && IsDigit(ts[3]) && ts[4] == '-' &&
    IsDigit(ts[5]) && IsDigit(ts[6]) && ts[7] == '-' && IsDigit(ts[8]) && IsDigit(ts[9]) &&
    ts[10] == 'T' && IsDigit(ts[11]) && IsDigit(ts[12]) && ts[13] == ':' &&
    IsDigit(ts[14]) && IsDigit(ts[15]) && ts[16] == ':' && IsDigit(ts[17]) && IsDigit(ts[18])
  }

  /** A service timestamp with the given offset sign, such as `2018-06-27T18:00:00+01:00`. */
  predicate ServiceTimestamp(ts: string, sign: char) {
    |ts| == 25 && DateTimePart(ts) && ts[19] == sign &&
    IsDigit(ts[20]) && IsDigit(ts[21]) && ts[22] == ':' && IsDigit(ts[23]) && IsDigit(ts[24])
  }

  /** A timestamp in the filter format `%Y-%m-%dT%H:%M:%S%z`, such as `2018-06-27T18:00:00+0100`. */
  predicate FilterTimestamp(ts: string) {
    |ts| == 24 && DateTimePart(ts) && (ts[19] == '+' || ts[19] == '-') &&
    IsDigit(ts[20]) && IsDigit(ts[21]) && IsDigit(ts[22]) && IsDigit(ts[23])
  }

  /** A positive-offset service timestamp converts to the filter format and rebuilds to itself. */
  lemma ServiceTimestampConverts(ts: string)
    requires ServiceTimestamp(ts, '+')
    ensures ColonOffset(ts)
    ensures ConvertTimestamp(ts) == Some(ts[..22] + ts[23..])
    ensures FilterTimestamp(ConvertTimestamp(ts).value)
    ensures RebuildTimestamp(ConvertTimestamp(ts).value) == Some(ts)
  {
    FindOffsetFirst(ts, false, 19);
    FindOffsetFirst(ts, true, 19);
    LineOfNewlineFree(ts[23..]);
    ConvertThenRebuild(ts);
  }

  /** The date and time part holds no `+`. */
  lemma DateTimeWithoutPlus(ts: string)
    requires DateTimePart(ts)
    ensures forall k :: 0 <= k < 19 ==> ts[k] != '+'
  {
  }

  /** A filter-format timestamp has no `+HH:` anywhere. */
  lemma FilterTimestampHasNoColonOffset(t: string)
    requires FilterTimestamp(t)
    ensures forall q :: 0 <= q < |t| ==> !Fits(t, q, true)
  {
    DateTimeWithoutPlus(t);
    forall q | 0 <= q < |t| ensures !Fits(t, q, true) {
      if q == 19 {
        assert IsDigit(t[22]);
      } else if q > 19 {
        assert IsDigit(t[q]);
      }
    }
  }

  /**
   * Conversion is not idempotent: a converted service timestamp has no `+HH:` left,
   * so converting it again fails.
   */
  lemma ConvertTwiceFails(ts: string)
    requires ServiceTimestamp(ts, '+')
    ensures ConvertTimestamp(ts).Some? && ConvertTimestamp(ConvertTimestamp(ts).value) == None
  {
    ServiceTimestampConverts(ts);
    FilterTimestampHasNoColonOffset(ConvertTimestamp(ts).value);
  }

  /** A negative offset has no `+HH`, so the conversion fails on it. */
  lemma NegativeOffsetFails(ts: string)
    requires ServiceTimestamp(ts, '-')
    ensures ConvertTimestamp(ts) == None
  {
    assert forall q :: 0 <= q < |ts| ==> ts[q] != '+';
  }

  /**
   * The conversion of the service's example, `2018-06-27T18:00:00+01:00`.
   * The literal comes in as a parameter pinned by `requires`, which keeps the solver's work on it small.
   */
  lemma ConvertExample(ts: string, expected: string)
    requires ts == "2018-06-27T18:00:00+01:00" && expected == "2018-06-27T18:00:00+0100"
    ensures ConvertTimestamp(ts) == Some(expected)
  {
    assert forall q :: 0 <= q < 19 ==> ts[q] != '+';
    ConvertAt(ts, 19);
    assert ts[..22] == expected[..22];
    assert ts[23..] == expected[22..];
    assert expected == expected[..22] + expected[22..];
  }
}
