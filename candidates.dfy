/** The loop of `schedule_meeting` that lists, for every date of the coming
    year, the participants who may be invited on it: a participant goes under
    each date they are available on that is not too soon after the meeting
    they last confirmed. */
module CandidateMap {
  import opened Wrappers
  import opened Calendar
  import opened Availability
  import opened AvailabilityProperties

  /** A meeting preference as the loop reads it, with the last confirmation of
      the participant's attendance record. */
  datatype Participant = Participant(
    attendantCode: string,
    rules: string,            // `selected_attending_dates`
    months: int,              // `prefer_to_attend_every_n_months`
    lastConfirmation: Date)   // the date of `last_confirmation_time`

  /** How many days the loop looks ahead of today. */
  const Horizon := 365

  /** `months * 30 * 0.7` days: 21 days a month. */
  function MinimalAttendingInterval(months: int): int {
    21 * months
  }

  /** `earliest_acceptable_date`. */
  function EarliestAcceptableDate(p: Participant): Date {
    p.lastConfirmation + MinimalAttendingInterval(p.months)
  }

  /** `date_to_potential_participants`. */
  type Candidates = map<Date, seq<Participant>>

  /** The dates of `available` on which `p` may be invited. */
  function Acceptable(p: Participant, available: set<Date>): set<Date> {
    set d | d in available && EarliestAcceptableDate(p) <= d
  }

  /** `m` with `p` appended to the list of every date of `ds`. */
  function AddParticipant(m: Candidates, p: Participant, ds: set<Date>): Candidates {
    map d | d in m.Keys + ds :: (if d in m then m[d] else []) + (if d in ds then [p] else [])
  }

  /** The map the loop builds over participants `ps`, whose available dates (or
      the error `get_available_dates` raises for them) are `avail`: the first
      participant whose rules raise ends the loop with that error. */
  function CandidatesFrom(ps: seq<Participant>, avail: seq<Result<set<Date>, RuleError>>)
    : Result<Candidates, RuleError>
    requires |avail| == |ps|
    decreases |ps|
  {
    if ps == [] then Ok(map[])
    else
      var n := |ps| - 1;
      match CandidatesFrom(ps[..n], avail[..n])
      case Err(e) => Err(e)
      case Ok(m) =>
        match avail[n]
        case Err(e) => Err(e)
        case Ok(ds) => Ok(AddParticipant(m, ps[n], Acceptable(ps[n], ds)))
  }

  /** What `get_available_dates` gives for each participant over the coming year. */
  ghost function AvailabilityOf(ps: seq<Participant>, today: Date, env: Env)
    : (avail: seq<Result<set<Date>, RuleError>>)
    ensures |avail| == |ps|
    decreases |ps|
  {
    if ps == [] then []
    else [AvailableDates(ps[0].rules, today, today + Horizon, env)] + AvailabilityOf(ps[1..], today, env)
  }

  lemma {:induction false} AvailabilityOfAt(ps: seq<Participant>, today: Date, env: Env, i: int)
    requires 0 <= i < |ps|
    ensures AvailabilityOf(ps, today, env)[i] == AvailableDates(ps[i].rules, today, today + Horizon, env)
    decreases |ps|
  {
    if i > 0 {
      AvailabilityOfAt(ps[1..], today, env, i - 1);
    }
  }

  /** The map the loop of `schedule_meeting` builds for participants `ps` on day `today`. */
  ghost function CandidateDates(ps: seq<Participant>, today: Date, env: Env): Result<Candidates, RuleError> {
    CandidatesFrom(ps, AvailabilityOf(ps, today, env))
  }

  /* ---------------------------------------------------------------------------
     The loop
     ------------------------------------------------------------------------- */

  /** Once the participants before the `i`-th were read without error, an error
      for the `i`-th is the loop's result. */
  lemma {:induction false} FirstErrorEnds(ps: seq<Participant>, avail: seq<Result<set<Date>, RuleError>>, i: int, k: int)
    requires |avail| == |ps| && 0 <= i < k <= |ps|
    requires CandidatesFrom(ps[..i], avail[..i]).Ok? && avail[i].Err?
    ensures CandidatesFrom(ps[..k], avail[..k]) == Err(avail[i].error)
    decreases k
  {
    assert ps[..k][..k - 1] == ps[..k - 1] && avail[..k][..k - 1] == avail[..k - 1];
    if k > i + 1 {
      FirstErrorEnds(ps, avail, i, k - 1);
    }
  }

  /** The loop's result once every participant was read. */
  lemma CandidatesFromWhole(ps: seq<Participant>, avail: seq<Result<set<Date>, RuleError>>)
    requires |avail| == |ps|
    ensures CandidatesFrom(ps[..|ps|], avail[..|avail|]) == CandidatesFrom(ps, avail)
  {
    assert ps[..|ps|] == ps && avail[..|avail|] == avail;
  }

  /** One more participant read without error. */
  lemma {:induction false} CandidatesStep(ps: seq<Participant>, avail: seq<Result<set<Date>, RuleError>>,
                                          i: int, m: Candidates, ds: set<Date>)
    requires |avail| == |ps| && 0 <= i < |ps|
    requires CandidatesFrom(ps[..i], avail[..i]) == Ok(m) && avail[i] == Ok(ds)
    ensures CandidatesFrom(ps[..i + 1], avail[..i + 1]) == Ok(AddParticipant(m, ps[i], Acceptable(ps[i], ds)))
  {
    assert ps[..i + 1][..i] == ps[..i] && avail[..i + 1][..i] == avail[..i];
  }

  /** Adding one more date to those `p` goes under. */
  lemma AddParticipantStep(m: Candidates, p: Participant, ds: set<Date>, d: Date)
    requires d !in ds
    ensures var r := AddParticipant(m, p, ds);
            AddParticipant(m, p, ds + {d}) == r[d := (if d in r then r[d] else []) + [p]]
  {
    var r := AddParticipant(m, p, ds);
    var a := AddParticipant(m, p, ds + {d});
    var b := r[d := (if d in r then r[d] else []) + [p]];
    assert a.Keys == b.Keys;
    forall k | k in a
      ensures a[k] == b[k]
    {
    }
  }

  /** Adding a participant under no date changes nothing. */
  lemma AddParticipantNothing(m: Candidates, p: Participant)
    ensures AddParticipant(m, p, {}) == m
  {
    var r := AddParticipant(m, p, {});
    assert r.Keys == m.Keys;
    forall d | d in m
      ensures r[d] == m[d]
    {
      assert r[d] == m[d] + [];
    }
  }

  /** A set that is not empty has an element. */
  lemma HasElement(s: set<Date>)
    ensures s != {} ==> exists x :: x in s
  {
    if forall x :: x !in s {
      assert s == {};
    }
  }

  /** One more available date for `p`: `p` joins its list when the date is
      acceptable, and nothing changes otherwise. */
  lemma AddOneDate(m: Candidates, p: Participant, done: set<Date>, d: Date)
    requires d !in done
    ensures var r := AddParticipant(m, p, Acceptable(p, done));
            AddParticipant(m, p, Acceptable(p, done + {d}))
            == if EarliestAcceptableDate(p) <= d then r[d := (if d in r then r[d] else []) + [p]] else r
  {
    if EarliestAcceptableDate(p) <= d {
      assert Acceptable(p, done + {d}) == Acceptable(p, done) + {d};
      AddParticipantStep(m, p, Acceptable(p, done), d);
    } else {
      assert Acceptable(p, done + {d}) == Acceptable(p, done);
    }
  }

  /** The inner loop: `p` appended under each of its available dates that is
      not before its earliest acceptable date. */
  method AddAcceptableDates(m: Candidates, p: Participant, dates: set<Date>) returns (r: Candidates)
    ensures r == AddParticipant(m, p, Acceptable(p, dates))
  {
    r := m;
    var earliest := EarliestAcceptableDate(p);
    var remaining := dates;
    AddParticipantNothing(m, p);
    assert Acceptable(p, dates - remaining) == {};
    while remaining != {}
      invariant remaining <= dates
      invariant r == AddParticipant(m, p, Acceptable(p, dates - remaining))
      decreases |remaining|
    {
      HasElement(remaining);
      var d :| d in remaining;
      AddOneDate(m, p, dates - remaining, d);
      if earliest <= d {
        r := r[d := (if d in r then r[d] else []) + [p]];
      }
      assert dates - (remaining - {d}) == (dates - remaining) + {d};
      remaining := remaining - {d};
    }
    assert dates - remaining == dates;
  }

  /** The loop of `schedule_meeting`: each participant's rules are read over
      the coming year, and the participant is appended under each available
      date from their earliest acceptable date on; the first participant whose
      rules raise ends the loop with that error. */
  method BuildCandidateMap(ps: seq<Participant>, today: Date, env: Env) returns (r: Result<Candidates, RuleError>)
    ensures r == CandidateDates(ps, today, env)
  {
    ghost var avail := AvailabilityOf(ps, today, env);
    var m: Candidates := map[];
    for i := 0 to |ps|
      invariant CandidatesFrom(ps[..i], avail[..i]) == Ok(m)
    {
      var p := ps[i];
      AvailabilityOfAt(ps, today, env, i);
      var available := GetAvailableDates(p.rules, today, today + Horizon, env);
      if available.Err? {
        FirstErrorEnds(ps, avail, i, |ps|);
        CandidatesFromWhole(ps, avail);
        return Err(available.error);
      }
      CandidatesStep(ps, avail, i, m, available.value);
      m := AddAcceptableDates(m, p, available.value);
    }
    CandidatesFromWhole(ps, avail);
    r := Ok(m);
  }

  /* ---------------------------------------------------------------------------
     What the map holds
     ------------------------------------------------------------------------- */

  /** No participant's rules raised. */
  predicate AllRead(avail: seq<Result<set<Date>, RuleError>>) {
    forall i :: 0 <= i < |avail| ==> avail[i].Ok?
  }

  /** The `i`-th participant's rules raise `e`, and those of every participant
      before it were read. */
  predicate FirstError(avail: seq<Result<set<Date>, RuleError>>, i: int, e: RuleError) {
    0 <= i < |avail| && avail[i] == Err(e) && AllRead(avail[..i])
  }

  /** The participants, in their order, that may be invited on `d`: a
      reference definition of a date's list, independent of the map. */
  function Invitable(ps: seq<Participant>, avail: seq<Result<set<Date>, RuleError>>, d: Date): seq<Participant>
    requires |avail| == |ps| && AllRead(avail)
    decreases |ps|
  {
    if ps == [] then []
    else
      var n := |ps| - 1;
      Invitable(ps[..n], avail[..n], d) + if d in Acceptable(ps[n], avail[n].value) then [ps[n]] else []
  }

  /** The loop ends with error `e` exactly when `e` is what the first
      participant whose rules raise gives. */
  lemma {:induction false} CandidatesError(ps: seq<Participant>, avail: seq<Result<set<Date>, RuleError>>, e: RuleError)
    requires |avail| == |ps|
    ensures CandidatesFrom(ps, avail) == Err(e) <==> exists i :: FirstError(avail, i, e)
    decreases |ps|
  {
    if ps != [] {
      var n := |ps| - 1;
      CandidatesError(ps[..n], avail[..n], e);
      CandidatesOk(ps[..n], avail[..n]);
      if CandidatesFrom(ps, avail) == Err(e) {
        if CandidatesFrom(ps[..n], avail[..n]) == Err(e) {
          var i :| FirstError(avail[..n], i, e);
          assert avail[..n][..i] == avail[..i];
          assert FirstError(avail, i, e);
        } else {
          assert avail[..n][..n] == avail[..n];
          assert FirstError(avail, n, e);
        }
      }
      if exists i :: FirstError(avail, i, e) {
        var i :| FirstError(avail, i, e);
        if i < n {
          assert avail[..n][..i] == avail[..i];
          assert FirstError(avail[..n], i, e);
        } else {
          assert avail[..n] == avail[..i];
        }
      }
    }
  }

  /** The loop ends without error exactly when every participant's rules were read. */
  lemma {:induction false} CandidatesOk(ps: seq<Participant>, avail: seq<Result<set<Date>, RuleError>>)
    requires |avail| == |ps|
    ensures CandidatesFrom(ps, avail).Ok? <==> AllRead(avail)
    decreases |ps|
  {
    if ps != [] {
      var n := |ps| - 1;
      CandidatesOk(ps[..n], avail[..n]);
      if AllRead(avail) {
        assert AllRead(avail[..n]);
      }
      if CandidatesFrom(ps, avail).Ok? {
        forall i | 0 <= i < |avail|
          ensures avail[i].Ok?
        {
          if i < n {
            assert avail[..n][i] == avail[i];
          }
        }
      }
    }
  }

  /** When every participant was read, a date is a key of the map exactly when
      someone may be invited on it, and its list is those participants in
      their order. */
  lemma {:induction false} CandidatesContents(ps: seq<Participant>, avail: seq<Result<set<Date>, RuleError>>)
    requires |avail| == |ps| && AllRead(avail)
    ensures CandidatesFrom(ps, avail).Ok?
    ensures var m := CandidatesFrom(ps, avail).value;
            forall d :: (d in m <==> Invitable(ps, avail, d) != []) && (d in m ==> m[d] == Invitable(ps, avail, d))
    decreases |ps|
  {
    CandidatesOk(ps, avail);
    if ps != [] {
      var n := |ps| - 1;
      assert AllRead(avail[..n]);
      CandidatesContents(ps[..n], avail[..n]);
    }
  }

  /** Someone is in the list of `d` exactly when one of the participants is
      them and may be invited on `d`. */
  lemma {:induction false} InvitableMembers(ps: seq<Participant>, avail: seq<Result<set<Date>, RuleError>>, d: Date, x: Participant)
    requires |avail| == |ps| && AllRead(avail)
    ensures x in Invitable(ps, avail, d) <==>
              exists i :: 0 <= i < |ps| && ps[i] == x && d in Acceptable(ps[i], avail[i].value)
    decreases |ps|
  {
    if ps != [] {
      var n := |ps| - 1;
      assert AllRead(avail[..n]);
      InvitableMembers(ps[..n], avail[..n], d, x);
      if x in Invitable(ps[..n], avail[..n], d) {
        var i :| 0 <= i < n && ps[..n][i] == x && d in Acceptable(ps[..n][i], avail[..n][i].value);
        assert ps[i] == x && d in Acceptable(ps[i], avail[i].value);
      }
      if exists i :: 0 <= i < |ps| && ps[i] == x && d in Acceptable(ps[i], avail[i].value) {
        var i :| 0 <= i < |ps| && ps[i] == x && d in Acceptable(ps[i], avail[i].value);
        if i < n {
          assert ps[..n][i] == x && d in Acceptable(ps[..n][i], avail[..n][i].value);
        }
      }
    }
  }

  /** Participants listed once each give lists where nobody appears twice. */
  lemma {:induction false} InvitableDistinct(ps: seq<Participant>, avail: seq<Result<set<Date>, RuleError>>, d: Date)
    requires |avail| == |ps| && AllRead(avail)
    requires forall j, k :: 0 <= j < k < |ps| ==> ps[j] != ps[k]
    ensures var q := Invitable(ps, avail, d);
            forall j, k :: 0 <= j < k < |q| ==> q[j] != q[k]
    decreases |ps|
  {
    if ps != [] {
      var n := |ps| - 1;
      assert AllRead(avail[..n]);
      InvitableDistinct(ps[..n], avail[..n], d);
      InvitableMembers(ps[..n], avail[..n], d, ps[n]);
    }
  }

  /** Every date of the map lies in the coming year, has someone to invite,
      and is not before the earliest acceptable date of anyone listed on it. */
  lemma CandidateDatesWithinYear(ps: seq<Participant>, today: Date, env: Env)
    ensures CandidateDates(ps, today, env).Ok? ==>
              var m := CandidateDates(ps, today, env).value;
              forall d :: d in m ==>
                today <= d <= today + Horizon && m[d] != [] && forall x :: x in m[d] ==> EarliestAcceptableDate(x) <= d
  {
    var avail := AvailabilityOf(ps, today, env);
    CandidatesOk(ps, avail);
    if CandidatesFrom(ps, avail).Ok? {
      CandidatesContents(ps, avail);
      var m := CandidatesFrom(ps, avail).value;
      forall d | d in m
        ensures today <= d <= today + Horizon && m[d] != []
        ensures forall x :: x in m[d] ==> EarliestAcceptableDate(x) <= d
      {
        forall x | x in m[d]
          ensures EarliestAcceptableDate(x) <= d
        {
          InvitableMembers(ps, avail, d, x);
        }
        var x := m[d][0];
        InvitableMembers(ps, avail, d, x);
        var i :| 0 <= i < |ps| && ps[i] == x && d in Acceptable(ps[i], avail[i].value);
        DateWithinYear(ps, today, env, i, d);
      }
    }
  }

  /** A date one participant is available on lies in the coming year. */
  lemma DateWithinYear(ps: seq<Participant>, today: Date, env: Env, i: int, d: Date)
    requires 0 <= i < |ps| && AvailabilityOf(ps, today, env)[i].Ok?
    requires d in AvailabilityOf(ps, today, env)[i].value
    ensures today <= d <= today + Horizon
  {
    AvailabilityOfAt(ps, today, env, i);
    AvailableDatesWithinWindow(ps[i].rules, today, today + Horizon, env);
  }
}
