/** searchForWednesday: fetch the group list, map every group to its schedule,
    then scan the schedules in order for the weekday. The fetch itself is an
    input: the value that `await fetchResource(rootURL, '/groups')` produced.

    JavaScript resolves the function to `true`, `false`, or (after any fault,
    caught and logged at its end) `undefined`; these are `Meets`,
    `DoesNotMeet` and `Unknown`. */
module Schedule {

  import opened Wrappers
  import opened Weekday

  /** A group record. Its schedule is None when the field is missing or holds
      something other than a string. A group that is not an object (a number,
      say) has no schedule field either and is a Group(None). */
  datatype Group = Group(schedule: Option<string>)

  /** What the fetch produced: nothing (the fetch or the JSON decoding failed
      and fetchResource returned undefined), a value without a `map` method,
      or an array whose elements may be null. */
  datatype Payload = FetchFailed | NotAnArray | Fetched(groups: seq<Option<Group>>)

  datatype Outcome = Meets | DoesNotMeet | Unknown

  /** No element of the array is null or undefined. */
  predicate AllPresent(gs: seq<Option<Group>>) {
    forall k :: 0 <= k < |gs| ==> gs[k].Some?
  }

  /** Element k is a group whose schedule is a string. */
  predicate HasText(gs: seq<Option<Group>>, k: int) {
    0 <= k < |gs| && gs[k].Some? && gs[k].value.schedule.Some?
  }

  /** Element k has a schedule string that matches. */
  predicate Hits(gs: seq<Option<Group>>, k: int) {
    HasText(gs, k) && Matches(gs[k].value.schedule.value)
  }

  /** Element k has a schedule string that does not match. */
  predicate Misses(gs: seq<Option<Group>>, k: int) {
    HasText(gs, k) && !Hits(gs, k)
  }

  /** The loop reaches element k and returns true there. */
  predicate IsFirstHit(gs: seq<Option<Group>>, k: int) {
    Hits(gs, k) && forall j :: 0 <= j < k ==> Misses(gs, j)
  }

  /** The loop reaches element k, a group without a schedule string, and
      throws there. */
  predicate IsFirstFault(gs: seq<Option<Group>>, k: int) {
    0 <= k < |gs| && gs[k].Some? && gs[k].value.schedule.None? &&
    forall j :: 0 <= j < k ==> Misses(gs, j)
  }

  /** The outcome of searchForWednesday, stated declaratively: a fault in the
      map (which visits every element) or in the loop (which visits elements up
      to the first hit) gives Unknown. */
  function Search(p: Payload): Outcome {
    match p
    case FetchFailed => Unknown
    case NotAnArray => Unknown
    case Fetched(gs) =>
      if !AllPresent(gs) then Unknown
      else if exists k | 0 <= k < |gs| :: IsFirstHit(gs, k) then Meets
      else if forall k | 0 <= k < |gs| :: Misses(gs, k) then DoesNotMeet
      else Unknown
  }

  /** searchForWednesday, lines 32-48: the map over all groups, then the
      early-exit loop over the schedules. */
  method SearchForWednesday(p: Payload) returns (o: Outcome)
    ensures o == Search(p)
  {
    if !p.Fetched? {
      // `groups.map` on undefined or on a non-array throws
      return Unknown;
    }
    var gs := p.groups;
    var schedules: seq<Option<string>> := [];
    var i := 0;
    while i < |gs|
      invariant 0 <= i <= |gs| && |schedules| == i
      invariant forall k :: 0 <= k < i ==> gs[k].Some? && schedules[k] == gs[k].value.schedule
    {
      match gs[i]
      case None =>
        // reading `.schedule` of null throws
        return Unknown;
      case Some(g) =>
        schedules := schedules + [g.schedule];
      i := i + 1;
    }
    assert AllPresent(gs);
    i := 0;
    while i < |schedules|
      invariant 0 <= i <= |schedules|
      invariant forall k :: 0 <= k < i ==> Misses(gs, k)
    {
      match schedules[i]
      case None =>
        // `.match` is not a method of a non-string: it throws
        assert IsFirstFault(gs, i);
        FaultExcludesHit(gs, i);
        return Unknown;
      case Some(text) =>
        if Exec(text).Some? {
          assert IsFirstHit(gs, i);
          return Meets;
        }
      i := i + 1;
    }
    forall k | 0 <= k < |gs| ensures !IsFirstHit(gs, k) {
      assert Misses(gs, k);
    }
    return DoesNotMeet;
  }

  /** A fault reached by the loop rules out any later hit, and it is itself
      not passed over. */
  lemma FaultExcludesHit(gs: seq<Option<Group>>, i: int)
    requires IsFirstFault(gs, i)
    ensures forall k :: !IsFirstHit(gs, k)
    ensures !Misses(gs, i)
  {
    forall k ensures !IsFirstHit(gs, k) {
      if 0 <= k < i {
        assert Misses(gs, k);
      } else if k > i {
        assert !Misses(gs, i);
      }
    }
  }

  /** The first element the loop does not pass over, if there is one. */
  lemma {:induction false} FirstNonMiss(gs: seq<Option<Group>>, j: int)
    requires 0 <= j < |gs| && !Misses(gs, j)
    ensures exists m :: 0 <= m <= j && !Misses(gs, m) && forall i :: 0 <= i < m ==> Misses(gs, i)
  {
    if exists i :: 0 <= i < j && !Misses(gs, i) {
      var i :| 0 <= i < j && !Misses(gs, i);
      FirstNonMiss(gs, i);
    }
  }

  /** When every group has a schedule string, the search answers Meets exactly
      when some schedule matches, and DoesNotMeet otherwise: never Unknown. */
  lemma AllStringsDecide(gs: seq<Option<Group>>)
    requires forall k :: 0 <= k < |gs| ==> HasText(gs, k)
    ensures Search(Fetched(gs)) ==
              if exists k :: 0 <= k < |gs| && Hits(gs, k) then Meets else DoesNotMeet
  {
    forall k | 0 <= k < |gs| ensures gs[k].Some? {
      assert HasText(gs, k);
    }
    if k :| 0 <= k < |gs| && Hits(gs, k) {
      FirstNonMiss(gs, k);
      var m :| 0 <= m <= k && !Misses(gs, m) && forall i :: 0 <= i < m ==> Misses(gs, i);
      assert IsFirstHit(gs, m);
    } else {
      forall k | 0 <= k < |gs| ensures Misses(gs, k) && !IsFirstHit(gs, k) {
        assert HasText(gs, k) && !Hits(gs, k);
      }
    }
  }

  /** Once a schedule matches, nothing after it is looked at: later groups may
      have missing or non-string schedules (though they must not be null,
      since the map visits them all). */
  lemma StopsAtFirstHit(front: seq<Option<Group>>, rest: seq<Option<Group>>)
    requires |front| > 0 && IsFirstHit(front, |front| - 1)
    requires AllPresent(front) && AllPresent(rest)
    ensures Search(Fetched(front + rest)) == Meets
  {
    var gs := front + rest;
    forall j | 0 <= j < |front| - 1 ensures Misses(gs, j) {
      assert Misses(front, j) && gs[j] == front[j];
    }
    assert gs[|front| - 1] == front[|front| - 1];
    assert IsFirstHit(gs, |front| - 1);
  }

  /** The search is Unknown exactly when the fetch failed, the payload is not
      an array, some element is null, or the loop reaches a group without a
      schedule string before any hit. */
  lemma UnknownIff(p: Payload)
    ensures Search(p) == Unknown <==>
              || !p.Fetched?
              || !AllPresent(p.groups)
              || exists k :: IsFirstFault(p.groups, k)
  {
    if p.Fetched? && AllPresent(p.groups) {
      var gs := p.groups;
      if Search(p) == Unknown {
        var j :| 0 <= j < |gs| && !Misses(gs, j);
        FirstNonMiss(gs, j);
        var m :| 0 <= m <= j && !Misses(gs, m) && forall i :: 0 <= i < m ==> Misses(gs, i);
        assert !IsFirstHit(gs, m);
        assert IsFirstFault(gs, m);
      } else if k :| IsFirstFault(gs, k) {
        FaultExcludesHit(gs, k);
      }
    }
  }

  /** When no schedule matches, a group without a schedule string anywhere in
      the list makes the search Unknown. */
  lemma NoHitWithFaultIsUnknown(gs: seq<Option<Group>>, k: int)
    requires AllPresent(gs) && 0 <= k < |gs| && gs[k].value.schedule.None?
    requires forall j :: 0 <= j < |gs| ==> !Hits(gs, j)
    ensures Search(Fetched(gs)) == Unknown
  {
    assert !Misses(gs, k);
  }
}
