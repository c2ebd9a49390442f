/** The per-key flight protocol of s3/server.go (serveCacheable): one request at a time may go
    upstream for a key. A state machine over every interleaving of the requests' atomic steps. */
module S3Flight {

  datatype Pc =
    | Start               // the unguarded cache check comes first
    | Looping             // LoadOrStore comes next
    | Waiting(on: nat)    // receiving from another request's channel
    | Rechecking(on: nat) // that channel is closed; the cache is checked again
    | Leading(own: nat)   // its flight is in the table; the cache is checked once more
    | Fetching(own: nat)  // upstream
    | Closing(own: nat)   // the deferred close comes next
    | Deleting(own: nat)  // the deferred Delete comes next
    | Returned

  datatype Request = Request(key: string, pc: Pc)

  /** A flight that was stored: who made it, and how often its channel has been closed. A flight
      made in vain, because LoadOrStore found another, is never seen by anyone. */
  datatype Flight = Flight(owner: nat, closings: nat)

  datatype State = State(requests: seq<Request>, flights: map<string, nat>, made: seq<Flight>)

  /** A hit is a usable entry that was served; failing to serve it removes it and counts as a miss. */
  datatype Action =
    | Hit | Miss | Store | Load | Wake | HitAfterWait | MissAfterWait
    | HitAsLeader | MissAsLeader | Fetch | Close | Delete

  predicate Enabled(s: State, i: nat, a: Action) {
    i < |s.requests| &&
    var r := s.requests[i];
    match a
    case Hit => r.pc == Start
    case Miss => r.pc == Start
    case Store => r.pc == Looping && r.key !in s.flights
    case Load => r.pc == Looping && r.key in s.flights
    case Wake => r.pc.Waiting? && Closed(s, r.pc.on)
    case HitAfterWait => r.pc.Rechecking?
    case MissAfterWait => r.pc.Rechecking?
    case HitAsLeader => r.pc.Leading?
    case MissAsLeader => r.pc.Leading?
    case Fetch => r.pc.Fetching?
    case Close => r.pc.Closing? && r.pc.own < |s.made|
    case Delete => r.pc.Deleting?
  }

  predicate Closed(s: State, f: nat) {
    f < |s.made| && s.made[f].closings > 0
  }

  function Apply(s: State, i: nat, a: Action): State
    requires Enabled(s, i, a)
  {
    var r := s.requests[i];
    match a
    case Hit => Move(s, i, Returned)
    case Miss => Move(s, i, Looping)
    case Store =>
      var f := |s.made|;
      Move(s, i, Leading(f)).(flights := s.flights[r.key := f], made := s.made + [Flight(i, 0)])
    case Load => Move(s, i, Waiting(s.flights[r.key]))
    case Wake => Move(s, i, Rechecking(r.pc.on))
    case HitAfterWait => Move(s, i, Returned)
    case MissAfterWait => Move(s, i, Looping)
    case HitAsLeader => Move(s, i, Closing(r.pc.own))
    case MissAsLeader => Move(s, i, Fetching(r.pc.own))
    case Fetch => Move(s, i, Closing(r.pc.own))
    case Close =>
      var f := s.made[r.pc.own];
      Move(s, i, Deleting(r.pc.own)).(made := s.made[r.pc.own := f.(closings := f.closings + 1)])
    case Delete => Move(s, i, Returned).(flights := s.flights - {r.key})
  }

  function Move(s: State, i: nat, pc: Pc): State
    requires i < |s.requests|
  {
    s.(requests := s.requests[i := s.requests[i].(pc := pc)])
  }

  predicate Init(s: State) {
    s.flights == map[] && s.made == [] && forall i :: 0 <= i < |s.requests| ==> s.requests[i].pc == Start
  }

  type Schedule = seq<(nat, Action)>

  predicate Runs(s: State, schedule: Schedule)
    decreases |schedule|, 0
  {
    schedule == [] ||
    var front, last := schedule[..|schedule| - 1], schedule[|schedule| - 1];
    Runs(s, front) && Enabled(After(s, front), last.0, last.1)
  }

  function After(s: State, schedule: Schedule): State
    requires Runs(s, schedule)
    decreases |schedule|, 1
  {
    if schedule == [] then s
    else
      var front, last := schedule[..|schedule| - 1], schedule[|schedule| - 1];
      Apply(After(s, front), last.0, last.1)
  }

  // ----- The invariant -----

  /** The request is between storing flight `f` and deleting it. */
  predicate Holds(pc: Pc, f: nat) {
    pc == Leading(f) || pc == Fetching(f) || pc == Closing(f) || pc == Deleting(f)
  }

  predicate RequestInv(s: State, i: nat)
    requires i < |s.requests|
  {
    var r := s.requests[i];
    match r.pc
    case Leading(f) => OwnsInv(s, i, f, 0)
    case Fetching(f) => OwnsInv(s, i, f, 0)
    case Closing(f) => OwnsInv(s, i, f, 0)
    case Deleting(f) => OwnsInv(s, i, f, 1)
    case Waiting(f) => f < |s.made|
    case Rechecking(f) => Closed(s, f)
    case _ => true
  }

  predicate OwnsInv(s: State, i: nat, f: nat, closings: nat)
    requires i < |s.requests|
  {
    f < |s.made| && s.made[f] == Flight(i, closings) && s.requests[i].key in s.flights &&
        s.flights[s.requests[i].key] == f
  }

  /** An open flight is held by its owner; a flight is closed at most once. */
  predicate FlightInv(s: State, f: nat)
    requires f < |s.made|
  {
    var o := s.made[f].owner;
    o < |s.requests| && s.made[f].closings <= 1 && (s.made[f].closings == 0 ==> Holds(s.requests[o].pc, f))
  }

  ghost predicate Inv(s: State) {
    && (forall i :: 0 <= i < |s.requests| ==> RequestInv(s, i))
    && (forall f :: 0 <= f < |s.made| ==> FlightInv(s, f))
    && (forall k :: k in s.flights ==>
          && s.flights[k] < |s.made| && s.made[s.flights[k]].owner < |s.requests|
          && s.requests[s.made[s.flights[k]].owner].key == k
          && Holds(s.requests[s.made[s.flights[k]].owner].pc, s.flights[k]))
  }

  lemma MoverKeepsRequestInv(s: State, i: nat, a: Action)
    requires Inv(s) && Enabled(s, i, a)
    ensures RequestInv(Apply(s, i, a), i)
  {
    assert RequestInv(s, i);
  }

  /** A step leaves the others' flights as they are: it closes or deletes only the mover's own. */
  lemma OtherKeepsRequestInv(s: State, i: nat, a: Action, j: nat)
    requires Enabled(s, i, a) && j < |s.requests| && j != i && RequestInv(s, i) && RequestInv(s, j)
    ensures RequestInv(Apply(s, i, a), j)
  {
    assert Apply(s, i, a).requests[j] == s.requests[j];
  }

  lemma StepKeepsRequests(s: State, i: nat, a: Action)
    requires Inv(s) && Enabled(s, i, a)
    ensures var t := Apply(s, i, a); forall j :: 0 <= j < |t.requests| ==> RequestInv(t, j)
  {
    hide Apply, Enabled, RequestInv, FlightInv;
    var t := Apply(s, i, a);
    SameRequests(s, i, a);
    MoverKeepsRequestInv(s, i, a);
    forall j | 0 <= j < |t.requests| && j != i ensures RequestInv(t, j) {
      OtherKeepsRequestInv(s, i, a, j);
    }
  }

  lemma SameRequests(s: State, i: nat, a: Action)
    requires Enabled(s, i, a)
    ensures i < |s.requests| && |Apply(s, i, a).requests| == |s.requests|
  {
  }

  lemma StepKeepsFlights(s: State, i: nat, a: Action)
    requires Inv(s) && Enabled(s, i, a)
    ensures var t := Apply(s, i, a); forall f :: 0 <= f < |t.made| ==> FlightInv(t, f)
  {
    var t := Apply(s, i, a);
    assert RequestInv(s, i);
    forall f | 0 <= f < |t.made| ensures FlightInv(t, f) {
      if f < |s.made| { assert FlightInv(s, f); }
    }
  }

  lemma StepKeepsTable(s: State, i: nat, a: Action)
    requires Inv(s) && Enabled(s, i, a)
    ensures var t := Apply(s, i, a);
            forall k :: k in t.flights ==>
              && t.flights[k] < |t.made| && t.made[t.flights[k]].owner < |t.requests|
              && t.requests[t.made[t.flights[k]].owner].key == k
              && Holds(t.requests[t.made[t.flights[k]].owner].pc, t.flights[k])
  {
    assert RequestInv(s, i);
  }

  lemma {:induction false} RunKeepsInv(s: State, schedule: Schedule)
    requires Init(s) && Runs(s, schedule)
    ensures Inv(After(s, schedule))
  {
    if schedule != [] {
      var front, last := schedule[..|schedule| - 1], schedule[|schedule| - 1];
      RunKeepsInv(s, front);
      StepKeepsRequests(After(s, front), last.0, last.1);
      StepKeepsFlights(After(s, front), last.0, last.1);
      StepKeepsTable(After(s, front), last.0, last.1);
    }
  }

  predicate HoldsAny(pc: Pc) {
    pc.Leading? || pc.Fetching? || pc.Closing? || pc.Deleting?
  }

  // ----- Main results: every run from a state where no request has begun -----

  /** At most one request per key is between storing and deleting a flight, hence at most one is
      upstream. */
  lemma OneUpstreamPerKey(s: State, schedule: Schedule, i: nat, j: nat)
    requires Init(s) && Runs(s, schedule)
    ensures var t := After(s, schedule);
            (i < |t.requests| && j < |t.requests| && t.requests[i].key == t.requests[j].key &&
             HoldsAny(t.requests[i].pc) && HoldsAny(t.requests[j].pc)) ==> i == j
  {
    RunKeepsInv(s, schedule);
    var t := After(s, schedule);
    if i < |t.requests| && j < |t.requests| { assert RequestInv(t, i) && RequestInv(t, j); }
  }

  /** Delete removes the deleter's own flight. A channel is closed only by the request that made
      it, never twice, and it has been closed once that request no longer holds it. */
  lemma ClosedOnceDeletedByOwner(s: State, schedule: Schedule, i: nat, f: nat)
    requires Init(s) && Runs(s, schedule)
    ensures var t := After(s, schedule);
            Enabled(t, i, Delete) ==>
              t.requests[i].key in t.flights && t.flights[t.requests[i].key] == t.requests[i].pc.own
    ensures var t := After(s, schedule);
            Enabled(t, i, Close) ==> t.made[t.requests[i].pc.own] == Flight(i, 0)
    ensures var t := After(s, schedule);
            f < |t.made| ==> t.made[f].owner < |t.requests| && t.made[f].closings <= 1 &&
                             (!Holds(t.requests[t.made[f].owner].pc, f) ==> t.made[f].closings == 1)
  {
    RunKeepsInv(s, schedule);
    var t := After(s, schedule);
    if i < |t.requests| { assert RequestInv(t, i); }
    if f < |t.made| { assert FlightInv(t, f); }
  }

  /** Some step served the request from the cache or went upstream for it. */
  predicate Answered(schedule: Schedule, i: nat) {
    || (i, Hit) in schedule || (i, HitAfterWait) in schedule || (i, HitAsLeader) in schedule
    || (i, Fetch) in schedule
  }

  /** Whoever has returned, or is about to, was served from the cache or went upstream. */
  lemma {:induction false} ReturnedMeansAnswered(s: State, schedule: Schedule, i: nat)
    requires Init(s) && Runs(s, schedule)
    ensures var t := After(s, schedule);
            |t.requests| == |s.requests| &&
            (i < |t.requests| && (t.requests[i].pc.Closing? || t.requests[i].pc.Deleting? ||
                t.requests[i].pc.Returned?) ==>
               Answered(schedule, i))
  {
    if schedule != [] {
      var front, last := schedule[..|schedule| - 1], schedule[|schedule| - 1];
      ReturnedMeansAnswered(s, front, i);
      assert schedule == front + [last];
      assert forall x :: x in schedule <==> x in front || x == last;
    }
  }

  // ----- Progress -----

  /** A waiter can find the closed flight still in the table and go round the loop again. */
  predicate OnClosedFlight(s: State, r: Request) {
    r.key in s.flights && Closed(s, s.flights[r.key]) &&
    (r.pc == Looping || r.pc == Waiting(s.flights[r.key]) || r.pc == Rechecking(s.flights[r.key]))
  }

  predicate Spins(s: State, i: nat, a: Action) {
    i < |s.requests| && OnClosedFlight(s, s.requests[i]) && (a == Load || a == Wake || a == MissAfterWait)
  }

  /** Requests still to return, a request that has closed its flight counting less. */
  function Phase(pc: Pc): nat {
    match pc
    case Returned => 0
    case Deleting(_) => 1
    case _ => 2
  }

  function Rank(s: State, r: Request): nat {
    match r.pc
    case Start => 6
    case Looping => 3
    case Waiting(f) => if r.key in s.flights && s.flights[r.key] == f then (if Closed(s, f) then 3 else 0) else 5
    case Rechecking(f) => if r.key in s.flights && s.flights[r.key] == f then 3 else 4
    case Leading(_) => 2
    case Fetching(_) => 1
    case _ => 0
  }

  function Sum(a: seq<nat>): nat {
    if a == [] then 0 else a[0] + Sum(a[1..])
  }

  lemma {:induction false} SumMonotone(a: seq<nat>, b: seq<nat>)
    requires |a| == |b| && forall j :: 0 <= j < |a| ==> a[j] <= b[j]
    ensures Sum(a) <= Sum(b)
    ensures (exists j :: 0 <= j < |a| && a[j] < b[j]) ==> Sum(a) < Sum(b)
  {
    if a != [] {
      SumMonotone(a[1..], b[1..]);
      if j :| 0 <= j < |a| && a[j] < b[j] && j > 0 { assert a[1..][j - 1] < b[1..][j - 1]; }
    }
  }

  lemma {:induction false} SumBound(a: seq<nat>, m: nat)
    requires forall j :: 0 <= j < |a| ==> a[j] <= m
    ensures Sum(a) <= m * |a|
  {
    if a != [] { SumBound(a[1..], m); assert m * |a| == m + m * |a[1..]|; }
  }

  ghost function Phases(s: State): seq<nat> {
    seq(|s.requests|, i requires 0 <= i < |s.requests| => Phase(s.requests[i].pc))
  }

  ghost function Ranks(s: State): seq<nat> {
    seq(|s.requests|, i requires 0 <= i < |s.requests| => Rank(s, s.requests[i]))
  }

  /** Phases first, ranks second. */
  ghost function Work(s: State): nat {
    Sum(Phases(s)) * (6 * |s.requests| + 1) + Sum(Ranks(s))
  }

  lemma OthersKeepRank(s: State, i: nat, a: Action, j: nat)
    requires Inv(s) && Enabled(s, i, a) && j < |s.requests| && j != i
    requires Phase(Apply(s, i, a).requests[i].pc) == Phase(s.requests[i].pc)
    ensures var t := Apply(s, i, a); t.requests[j] == s.requests[j] && Rank(t, t.requests[j]) == Rank(s, s.requests[j])
  {
    hide FlightInv;
    assert RequestInv(s, j) && RequestInv(s, i);
  }

  lemma MoverLosesRank(s: State, i: nat, a: Action)
    requires Inv(s) && Enabled(s, i, a)
    ensures var t := Apply(s, i, a);
            |t.requests| == |s.requests| &&
            Phase(t.requests[i].pc) <= Phase(s.requests[i].pc) &&
            (Phase(t.requests[i].pc) == Phase(s.requests[i].pc) ==>
               && Rank(t, t.requests[i]) <= Rank(s, s.requests[i])
               && (!Spins(s, i, a) ==> Rank(t, t.requests[i]) < Rank(s, s.requests[i])))
  {
    hide FlightInv;
    assert RequestInv(s, i);
  }

  lemma StepLowersPhaseOrRanks(s: State, i: nat, a: Action)
    requires Inv(s) && Enabled(s, i, a)
    ensures var t := Apply(s, i, a);
            |t.requests| == |s.requests| &&
            (forall j :: 0 <= j < |s.requests| ==> Phase(t.requests[j].pc) <= Phase(s.requests[j].pc)) &&
            (Phase(t.requests[i].pc) == Phase(s.requests[i].pc) ==>
               && (forall j :: 0 <= j < |s.requests| && j != i ==> Rank(t, t.requests[j]) == Rank(s, s.requests[j]))
               && Rank(t, t.requests[i]) <= Rank(s, s.requests[i])
               && (!Spins(s, i, a) ==> Rank(t, t.requests[i]) < Rank(s, s.requests[i])))
  {
    hide Rank, Phase, Spins, Inv;
    var t := Apply(s, i, a);
    MoverLosesRank(s, i, a);
    forall j | 0 <= j < |s.requests| && j != i ensures t.requests[j] == s.requests[j] { }
    forall j | 0 <= j < |s.requests| && j != i && Phase(t.requests[i].pc) == Phase(s.requests[i].pc)
      ensures Rank(t, t.requests[j]) == Rank(s, s.requests[j])
    {
      OthersKeepRank(s, i, a, j);
    }
  }

  /** No step adds work, and every step that does not spin takes some away. */
  lemma StepDoesWork(s: State, i: nat, a: Action)
    requires Inv(s) && Enabled(s, i, a)
    ensures Work(Apply(s, i, a)) <= Work(s)
    ensures !Spins(s, i, a) ==> Work(Apply(s, i, a)) < Work(s)
  {
    hide Apply, Rank, Phase, Spins, Inv;
    var t := Apply(s, i, a);
    StepLowersPhaseOrRanks(s, i, a);
    SumMonotone(Phases(t), Phases(s));
    SumBoundRanks(t);
    if Phase(t.requests[i].pc) == Phase(s.requests[i].pc) {
      SumMonotone(Ranks(t), Ranks(s));
      assert Ranks(t)[i] == Rank(t, t.requests[i]) && Ranks(s)[i] == Rank(s, s.requests[i]);
      LexLess(Sum(Phases(t)), Sum(Phases(s)), Sum(Ranks(t)), Sum(Ranks(s)), 6 * |s.requests|);
    } else {
      assert Phases(t)[i] < Phases(s)[i];
      LexLess(Sum(Phases(t)), Sum(Phases(s)), Sum(Ranks(t)), Sum(Ranks(s)), 6 * |s.requests|);
    }
  }

  lemma SumBoundRanks(s: State)
    ensures Sum(Ranks(s)) <= 6 * |s.requests|
  {
    SumBound(Ranks(s), 6);
  }

  lemma LexLess(p: nat, q: nat, x: nat, y: nat, m: nat)
    requires p <= q && x <= m
    ensures p < q ==> p * (m + 1) + x < q * (m + 1) + y
    ensures x <= y ==> p * (m + 1) + x <= q * (m + 1) + y
    ensures x < y ==> p * (m + 1) + x < q * (m + 1) + y
  {
    if p < q {
      Scale(p + 1, q, m + 1);
      assert (p + 1) * (m + 1) == p * (m + 1) + (m + 1);
    }
  }

  /** The steps of a schedule that do not spin. */
  ghost function UsefulSteps(s: State, schedule: Schedule): nat
    requires Runs(s, schedule)
  {
    if schedule == [] then 0
    else
      var front, last := schedule[..|schedule| - 1], schedule[|schedule| - 1];
      UsefulSteps(s, front) + if Spins(After(s, front), last.0, last.1) then 0 else 1
  }

  lemma {:induction false} UsefulStepsBounded(s: State, schedule: Schedule)
    requires Init(s) && Runs(s, schedule)
    ensures UsefulSteps(s, schedule) + Work(After(s, schedule)) <= Work(s)
  {
    if schedule != [] {
      var front, last := schedule[..|schedule| - 1], schedule[|schedule| - 1];
      UsefulStepsBounded(s, front);
      RunKeepsInv(s, front);
      StepDoesWork(After(s, front), last.0, last.1);
    }
  }

  /** While any request has not returned, some request can take a step that does not spin: nobody
      is deadlocked, and a spinning request spins only while the owner of the closed flight is
      about to delete it. */
  lemma NoDeadlock(s: State, i: nat) returns (j: nat, a: Action)
    requires Inv(s) && i < |s.requests| && s.requests[i].pc != Returned
    ensures Enabled(s, j, a) && !Spins(s, j, a)
    ensures OnClosedFlight(s, s.requests[i]) ==>
              a == Delete && s.requests[j].pc == Deleting(s.flights[s.requests[i].key])
  {
    var r := s.requests[i];
    assert RequestInv(s, i);
    j := i;
    if OnClosedFlight(s, r) {
      j := s.made[s.flights[r.key]].owner;
      a := Delete;
      assert RequestInv(s, j);
    } else {
      match r.pc
      case Start => a := Miss;
      case Looping => a := if r.key in s.flights then Load else Store;
      case Rechecking(_) => a := MissAfterWait;
      case Leading(_) => a := MissAsLeader;
      case Fetching(_) => a := Fetch;
      case Closing(_) => a := Close;
      case Deleting(_) => a := Delete;
      case Waiting(f) =>
        if Closed(s, f) {
          a := Wake;
        } else {
          assert FlightInv(s, f);
          j := s.made[f].owner;
          assert RequestInv(s, j);
          a := match s.requests[j].pc
            case Leading(_) => MissAsLeader
            case Fetching(_) => Fetch
            case _ => Close;
        }
    }
  }

  function Bound(n: nat): nat { 2 * n * (6 * n + 1) + 6 * n }

  lemma WorkAtMost(s: State)
    ensures Work(s) <= Bound(|s.requests|)
  {
    SumBound(Phases(s), 2);
    SumBoundRanks(s);
    Scale(Sum(Phases(s)), 2 * |s.requests|, 6 * |s.requests| + 1);
  }

  /** In every run of n requests at most 2n(6n + 1) + 6n steps do not spin, and as long as a
      request has not returned such a step is possible. */
  lemma EveryRequestCanReturn(s: State, schedule: Schedule)
    requires Init(s) && Runs(s, schedule)
    ensures UsefulSteps(s, schedule) <= Bound(|s.requests|)
    ensures (forall j: nat, a :: Enabled(After(s, schedule), j, a) ==> Spins(After(s, schedule), j, a)) ==>
              forall i :: 0 <= i < |After(s, schedule).requests| ==> After(s, schedule).requests[i].pc == Returned
  {
    hide Work, Bound, Enabled, Spins, Inv;
    UsefulStepsBounded(s, schedule);
    WorkAtMost(s);
    RunKeepsInv(s, schedule);
    var t := After(s, schedule);
    forall i | 0 <= i < |t.requests| && t.requests[i].pc != Returned
      ensures exists j: nat, a :: Enabled(t, j, a) && !Spins(t, j, a)
    {
      var j, a := NoDeadlock(t, i);
    }
  }

  lemma Scale(x: nat, y: nat, m: nat)
    requires x <= y
    ensures x * m <= y * m
  {
  }
}
