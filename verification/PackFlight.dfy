/** The pack flights of git/handler.go (handleUploadPack): clones of one repository state wait for
    the first of them to fetch the pack. A state machine over every interleaving of the
    requests' atomic steps, with evictions from the pack cache in between. */
module PackFlight {

  datatype Pc =
    | Start               // the cache check comes first
    | Missed              // LoadOrStore comes next
    | Waiting(on: nat)    // receiving from another request's channel
    | Rechecking          // that channel is closed; the cache is checked again
    | Fetching            // upstream; the deferred close and Delete are registered
    | Closing             // close comes next
    | Deleting            // Delete comes next
    | Returned

  /** A clone request. It makes one flight, which is named by the request's index; `closings`
      counts how often that flight's channel has been closed. `upstream` records that it went
      upstream, and `fellThrough` that it did so after waiting, having found nothing in the
      cache, without a flight in the table. */
  datatype Request = Request(key: string, pc: Pc, closings: nat, upstream: bool, fellThrough: bool)

  datatype State = State(requests: seq<Request>, flights: map<string, nat>, cached: set<string>)

  /** A fetch ends with the pack in the cache, or without. Evict is the pack cache's doing. */
  datatype Action =
    | Hit | Miss | Store | Load | Wake | HitAfterWait | FallThrough
    | Fetch(stored: bool) | Close | Delete
    | Evict(key: string)

  predicate Enabled(s: State, i: nat, a: Action) {
    a.Evict? ||
    (i < |s.requests| &&
     var r := s.requests[i];
     match a
     case Hit => r.pc == Start && r.key in s.cached
     case Miss => r.pc == Start && r.key !in s.cached
     case Store => r.pc == Missed && r.key !in s.flights
     case Load => r.pc == Missed && r.key in s.flights
     case Wake => r.pc.Waiting? && r.pc.on < |s.requests| && s.requests[r.pc.on].closings > 0
     case HitAfterWait => r.pc == Rechecking && r.key in s.cached
     case FallThrough => r.pc == Rechecking && r.key !in s.cached
     case Fetch(_) => r.pc == Fetching
     case Close => r.pc == Closing
     case Delete => r.pc == Deleting)
  }

  function Apply(s: State, i: nat, a: Action): State
    requires Enabled(s, i, a)
  {
    if a.Evict? then s.(cached := s.cached - {a.key})
    else
      var r := s.requests[i];
      match a
      case Hit => Move(s, i, r.(pc := Returned))
      case Miss => Move(s, i, r.(pc := Missed))
      case Store => Move(s, i, r.(pc := Fetching, upstream := true)).(flights := s.flights[r.key := i])
      case Load => Move(s, i, r.(pc := Waiting(s.flights[r.key])))
      case Wake => Move(s, i, r.(pc := Rechecking))
      case HitAfterWait => Move(s, i, r.(pc := Returned))
      case FallThrough => Move(s, i, r.(pc := Fetching, upstream := true, fellThrough := true))
      case Fetch(stored) => Move(s, i, r.(pc := Closing)).(cached := if stored then s.cached + {r.key} else s.cached)
      case Close => Move(s, i, r.(pc := Deleting, closings := r.closings + 1))
      case Delete => Move(s, i, r.(pc := Returned)).(flights := s.flights - {r.key})
  }

  function Move(s: State, i: nat, r: Request): State
    requires i < |s.requests|
  {
    s.(requests := s.requests[i := r])
  }

  predicate Init(s: State) {
    s.flights == map[] && forall i :: 0 <= i < |s.requests| ==>
        s.requests[i] == Request(s.requests[i].key, Start, 0, false, false)
  }

  type Schedule = seq<(nat, Action)>

  predicate Runs(s: State, schedule: Schedule)
    decreases |schedule|, 0
  {
    schedule == [] ||
    var front, last := schedule[..|schedule| - 1], schedule[|schedule| - 1];
    Runs(s, front) && Enabled(After(s, front), last.0, last.1)
  }

  function After(s: State, schedule: Schedule): State
    requires Runs(s, schedule)
    decreases |schedule|, 1
  {
    if schedule == [] then s
    else
      var front, last := schedule[..|schedule| - 1], schedule[|schedule| - 1];
      Apply(After(s, front), last.0, last.1)
  }

  // ----- The invariant of every run -----

  predicate Active(pc: Pc) { pc == Fetching || pc == Closing || pc == Deleting }

  predicate LocalInv(r: Request) {
    match r.pc
    case Deleting => r.closings == 1 && r.upstream
    case Returned => r.closings == if r.upstream then 1 else 0
    case _ => r.closings == 0 && (r.upstream <==> Active(r.pc))
  }

  /** The owner of a flight that is waited on is active, or has closed it. */
  predicate WaitInv(s: State, r: Request) {
    r.pc.Waiting? ==> r.pc.on < |s.requests| && (Active(s.requests[r.pc.on].pc) || s.requests[r.pc.on].closings == 1)
  }

  ghost predicate Inv(s: State) {
    && (forall i :: 0 <= i < |s.requests| ==> LocalInv(s.requests[i]) && WaitInv(s, s.requests[i]))
    && (forall k :: k in s.flights ==>
          && s.flights[k] < |s.requests|
          && s.requests[s.flights[k]].key == k && Active(s.requests[s.flights[k]].pc))
  }

  lemma StepKeepsInv(s: State, i: nat, a: Action)
    requires Inv(s) && Enabled(s, i, a)
    ensures Inv(Apply(s, i, a))
  {
    var t := Apply(s, i, a);
    if !a.Evict? {
      forall j | 0 <= j < |t.requests| ensures LocalInv(t.requests[j]) && WaitInv(t, t.requests[j]) {
        assert LocalInv(s.requests[i]) && LocalInv(s.requests[j]) && WaitInv(s, s.requests[j]);
      }
    }
  }

  lemma {:induction false} RunKeepsInv(s: State, schedule: Schedule)
    requires Init(s) && Runs(s, schedule)
    ensures Inv(After(s, schedule)) && |After(s, schedule).requests| == |s.requests|
  {
    if schedule != [] {
      var front, last := schedule[..|schedule| - 1], schedule[|schedule| - 1];
      RunKeepsInv(s, front);
      StepKeepsInv(After(s, front), last.0, last.1);
    }
  }

  // ----- Main results -----

  /** In every run a channel is closed at most once and only by the request that made it; when a
      request has returned its channel has been closed exactly if it went upstream; and nobody
      waits on an open channel whose owner has gone. */
  lemma ClosedOnceNobodyAbandoned(s: State, schedule: Schedule, i: nat)
    requires Init(s) && Runs(s, schedule) && i < |s.requests|
    ensures i < |After(s, schedule).requests|
    ensures var r := After(s, schedule).requests[i];
            r.closings <= 1 && (r.pc == Returned ==> (r.closings == 1 <==> r.upstream)) &&
                (r.pc == Closing ==> r.closings == 0)
    ensures var t := After(s, schedule);
            var r := t.requests[i];
            r.pc.Waiting? ==>
              && r.pc.on < |t.requests|
              && (t.requests[r.pc.on].closings == 0 ==>
                   t.requests[r.pc.on].pc == Fetching || t.requests[r.pc.on].pc == Closing)
  {
    RunKeepsInv(s, schedule);
    var t := After(s, schedule);
    assert LocalInv(t.requests[i]) && WaitInv(t, t.requests[i]);
    if t.requests[i].pc.Waiting? { assert LocalInv(t.requests[t.requests[i].pc.on]); }
  }

  /** Without a fall-through the table and the active requests agree. */
  ghost predicate Exclusive(s: State) {
    forall i :: 0 <= i < |s.requests| && Active(s.requests[i].pc) ==>
        s.requests[i].key in s.flights && s.flights[s.requests[i].key] == i
  }

  predicate NeverFellThrough(s: State) {
    forall i :: 0 <= i < |s.requests| ==> !s.requests[i].fellThrough
  }

  lemma StepKeepsExclusive(s: State, i: nat, a: Action)
    requires Inv(s) && Exclusive(s) && Enabled(s, i, a) && !a.FallThrough?
    ensures Exclusive(Apply(s, i, a))
  {
    var t := Apply(s, i, a);
    if !a.Evict? {
      forall j | 0 <= j < |t.requests| && Active(t.requests[j].pc)
        ensures t.requests[j].key in t.flights && t.flights[t.requests[j].key] == j
      {
        if j != i { assert t.requests[j] == s.requests[j]; }
      }
    }
  }

  lemma FallThroughShows(s: State, i: nat, a: Action)
    requires Enabled(s, i, a)
    ensures NeverFellThrough(Apply(s, i, a)) ==> !a.FallThrough? && NeverFellThrough(s)
  {
    var t := Apply(s, i, a);
    if a.FallThrough? { assert t.requests[i].fellThrough; }
    if !a.Evict? {
      forall j | 0 <= j < |s.requests| && s.requests[j].fellThrough ensures t.requests[j].fellThrough { }
    }
  }

  lemma {:induction false} NoFallThroughIsExclusive(s: State, schedule: Schedule)
    requires Init(s) && Runs(s, schedule) && NeverFellThrough(After(s, schedule))
    ensures Exclusive(After(s, schedule))
  {
    if schedule != [] {
      var front, last := schedule[..|schedule| - 1], schedule[|schedule| - 1];
      var u, t := After(s, front), After(s, schedule);
      RunKeepsInv(s, front);
      FallThroughShows(u, last.0, last.1);
      NoFallThroughIsExclusive(s, front);
      StepKeepsExclusive(u, last.0, last.1);
    }
  }

  /** Two requests for one key are upstream together only after some request fell through. */
  lemma OneUpstreamUnlessFellThrough(s: State, schedule: Schedule, i: nat, j: nat)
    requires Init(s) && Runs(s, schedule) && i < |s.requests| && j < |s.requests|
    ensures |After(s, schedule).requests| == |s.requests|
    ensures var t := After(s, schedule);
            (NeverFellThrough(t) && Active(t.requests[i].pc) && Active(t.requests[j].pc) &&
             t.requests[i].key == t.requests[j].key) ==> i == j
  {
    RunKeepsInv(s, schedule);
    if NeverFellThrough(After(s, schedule)) { NoFallThroughIsExclusive(s, schedule); }
  }

  /** Every fetch ends with the pack in the cache, and nothing is evicted. */
  predicate AlwaysStored(schedule: Schedule) {
    forall n :: 0 <= n < |schedule| ==> schedule[n].1 != Fetch(false) && !schedule[n].1.Evict?
  }

  /** With such fetches a closed flight means a cached pack. */
  ghost predicate StoredInv(s: State) {
    && NeverFellThrough(s)
    && (forall i :: 0 <= i < |s.requests| ==>
          var r := s.requests[i];
          r.pc == Closing || r.closings > 0 || r.pc == Rechecking ==> r.key in s.cached)
    && (forall i :: 0 <= i < |s.requests| && s.requests[i].pc.Waiting? ==>
          s.requests[i].pc.on < |s.requests| && s.requests[s.requests[i].pc.on].key == s.requests[i].key)
  }

  lemma StepKeepsStored(s: State, i: nat, a: Action)
    requires Inv(s) && StoredInv(s) && Enabled(s, i, a) && a != Fetch(false) && !a.Evict?
    ensures StoredInv(Apply(s, i, a))
  {
    var t := Apply(s, i, a);
    assert WaitInv(s, s.requests[i]) && LocalInv(s.requests[i]);
    forall j | 0 <= j < |t.requests| && j != i ensures t.requests[j] == s.requests[j] { }
  }

  lemma {:induction false} RunKeepsStored(s: State, schedule: Schedule)
    requires Init(s) && Runs(s, schedule) && AlwaysStored(schedule)
    ensures StoredInv(After(s, schedule))
  {
    if schedule != [] {
      var front, last := schedule[..|schedule| - 1], schedule[|schedule| - 1];
      assert schedule[|schedule| - 1].1 != Fetch(false);
      assert forall n :: 0 <= n < |front| ==> front[n] == schedule[n];
      RunKeepsStored(s, front);
      RunKeepsInv(s, front);
      StepKeepsStored(After(s, front), last.0, last.1);
    }
  }

  /** If every fetch ends with the pack in the cache and nothing is evicted, nobody falls through,
      so at most one upstream fetch per key is in flight at any time. */
  lemma OneUpstreamWhenStored(s: State, schedule: Schedule, i: nat, j: nat)
    requires Init(s) && Runs(s, schedule) && AlwaysStored(schedule) && i < |s.requests| && j < |s.requests|
    ensures |After(s, schedule).requests| == |s.requests|
    ensures var t := After(s, schedule);
            NeverFellThrough(t) &&
            (Active(t.requests[i].pc) && Active(t.requests[j].pc) && t.requests[i].key == t.requests[j].key ==> i == j)
  {
    RunKeepsStored(s, schedule);
    OneUpstreamUnlessFellThrough(s, schedule, i, j);
  }

  /** Whoever has returned, or is about to, was served from the cache or went upstream. */
  lemma {:induction false} ReturnedMeansAnswered(s: State, schedule: Schedule, i: nat)
    requires Init(s) && Runs(s, schedule)
    ensures var t := After(s, schedule);
            |t.requests| == |s.requests| &&
            (i < |t.requests| && (t.requests[i].pc == Closing || t.requests[i].pc == Deleting ||
                t.requests[i].pc == Returned) ==>
               || (i, Hit) in schedule || (i, HitAfterWait) in schedule
               || (i, Fetch(true)) in schedule || (i, Fetch(false)) in schedule)
  {
    if schedule != [] {
      var front, last := schedule[..|schedule| - 1], schedule[|schedule| - 1];
      ReturnedMeansAnswered(s, front, i);
      assert schedule == front + [last];
      assert forall x :: x in schedule <==> x in front || x == last;
    }
  }

  /** A request that has not begun when its pack is in the cache never goes upstream, as long as the
      pack is not evicted: whatever the others do, it is served from the cache. */
  lemma {:induction false} CachedMeansNotFetched(s: State, schedule: Schedule, n: nat, i: nat)
    requires Init(s) && Runs(s, schedule) && n <= |schedule| && Runs(s, schedule[..n])
    requires i < |After(s, schedule[..n]).requests|
    requires After(s, schedule[..n]).requests[i].pc == Start
    requires After(s, schedule[..n]).requests[i].key in After(s, schedule[..n]).cached
    requires forall k :: n <= k < |schedule| ==> schedule[k].1 != Evict(After(s, schedule[..n]).requests[i].key)
    ensures var t := After(s, schedule);
            && i < |t.requests| && t.requests[i].key == After(s, schedule[..n]).requests[i].key
            && t.requests[i].key in t.cached && !t.requests[i].upstream
            && (t.requests[i].pc == Start || t.requests[i].pc == Returned)
  {
    if n < |schedule| {
      var front, last := schedule[..|schedule| - 1], schedule[|schedule| - 1];
      assert front[..n] == schedule[..n];
      assert forall k :: n <= k < |front| ==> front[k] == schedule[k];
      CachedMeansNotFetched(s, front, n, i);
    } else {
      assert schedule[..n] == schedule;
      RunKeepsInv(s, schedule);
      assert LocalInv(After(s, schedule).requests[i]);
    }
  }

  // ----- Exactly when one upstream fetch per key is promised -----

  /** In every run at most one request for the key is upstream at any time. */
  ghost predicate OneUpstreamAlways(s: State, key: string) {
    forall schedule, i: nat, j: nat ::
      (Runs(s, schedule) && Upstream(After(s, schedule), i, key) && Upstream(After(s, schedule), j, key)) ==> i == j
  }

  predicate Upstream(s: State, i: nat, key: string) {
    i < |s.requests| && s.requests[i].key == key && s.requests[i].pc == Fetching
  }

  ghost predicate AtMostTwo(s: State, key: string) {
    forall i: nat, j: nat, k: nat :: SameKey(s, i, j, k) ==> s.requests[i].key != key
  }

  predicate SameKey(s: State, i: nat, j: nat, k: nat) {
    i < j < k < |s.requests| && s.requests[i].key == s.requests[j].key == s.requests[k].key
  }

  /** Two requests for one key: the other one is upstream only if this one is not, and it has
      closed its channel by the time this one has stopped waiting for it. */
  predicate PairInv(s: State, i: nat, j: nat)
    requires i < |s.requests| && j < |s.requests|
  {
    var r, other := s.requests[i], s.requests[j];
    && (r.pc.Waiting? ==> r.pc.on == j)
    && (r.pc == Rechecking ==> other.closings > 0)
    && (r.pc == Fetching ==> other.pc != Fetching)
    && (r.pc == Fetching ==> other.closings > 0 || (r.key in s.flights && s.flights[r.key] == i))
  }

  ghost predicate PairsInv(s: State, key: string) {
    forall i, j | 0 <= i < |s.requests| && 0 <= j < |s.requests| && i != j ::
      s.requests[i].key == s.requests[j].key == key ==> PairInv(s, i, j)
  }

  predicate OwnedByPair(s: State, i: nat, j: nat)
    requires i < |s.requests| && j < |s.requests|
  {
    s.requests[i].key in s.flights ==>
      var f := s.flights[s.requests[i].key];
      (f == i || f == j) && Active(s.requests[f].pc)
  }

  /** Only the two requests themselves can own the flight of their key. */
  lemma FlightIsOfThePair(s: State, i: nat, j: nat)
    requires Inv(s) && i < |s.requests| && j < |s.requests| && i != j
    requires AtMostTwo(s, s.requests[i].key) && s.requests[i].key == s.requests[j].key
    ensures OwnedByPair(s, i, j) && OwnedByPair(s, j, i)
    ensures LocalInv(s.requests[i]) && LocalInv(s.requests[j])
  {
    if s.requests[i].key in s.flights {
      var f := s.flights[s.requests[i].key];
      var x, y := if i < j then i else j, if i < j then j else i;
      assert s.requests[f].key == s.requests[x].key == s.requests[y].key;
      assert !SameKey(s, f, x, y) && !SameKey(s, x, f, y) && !SameKey(s, x, y, f);
    }
  }

  lemma MoverKeepsPair(s: State, n: nat, a: Action, j: nat)
    requires Enabled(s, n, a) && !a.Evict? && j < |s.requests| && n != j
    requires LocalInv(s.requests[n]) && LocalInv(s.requests[j]) && s.requests[n].key == s.requests[j].key
    requires OwnedByPair(s, n, j)
    requires PairInv(s, n, j) && PairInv(s, j, n)
    ensures PairInv(Apply(s, n, a), n, j) && PairInv(Apply(s, n, a), j, n)
  {
    var t := Apply(s, n, a);
    assert t.requests[j] == s.requests[j];
  }

  lemma OtherKeepsPair(s: State, n: nat, a: Action, i: nat, j: nat)
    requires Enabled(s, n, a) && i < |s.requests| && j < |s.requests| && (a.Evict? || (n != i && n != j))
    requires s.requests[i].key == s.requests[j].key && (a.Evict? || s.requests[n].key != s.requests[i].key)
    requires PairInv(s, i, j)
    ensures PairInv(Apply(s, n, a), i, j)
  {
    var t := Apply(s, n, a);
    assert t.requests[i] == s.requests[i] && t.requests[j] == s.requests[j];
  }

  lemma StepKeepsPair(s: State, n: nat, a: Action, i: nat, j: nat)
    requires Inv(s) && Enabled(s, n, a) && i < |s.requests| && j < |s.requests| && i != j
    requires AtMostTwo(s, s.requests[i].key) && s.requests[i].key == s.requests[j].key
    requires PairInv(s, i, j) && PairInv(s, j, i)
    ensures PairInv(Apply(s, n, a), i, j)
  {
    hide PairInv, Apply;
    FlightIsOfThePair(s, i, j);
    if a.Evict? || (n != i && n != j) {
      if !a.Evict? { NoThird(s, i, j, n); }
      OtherKeepsPair(s, n, a, i, j);
    } else if n == i {
      MoverKeepsPair(s, n, a, j);
    } else {
      MoverKeepsPair(s, n, a, i);
    }
  }

  lemma NoThird(s: State, i: nat, j: nat, n: nat)
    requires i < |s.requests| && j < |s.requests| && n < |s.requests| && i != j && n != i && n != j
    requires AtMostTwo(s, s.requests[i].key) && s.requests[i].key == s.requests[j].key
    ensures s.requests[n].key != s.requests[i].key
  {
    var x, y := if i < j then i else j, if i < j then j else i;
    assert !SameKey(s, n, x, y) && !SameKey(s, x, n, y) && !SameKey(s, x, y, n);
  }

  lemma {:induction false} RunKeepsPairs(s: State, schedule: Schedule, key: string)
    requires Init(s) && Runs(s, schedule) && AtMostTwo(s, key)
    ensures var t := After(s, schedule);
            PairsInv(t, key) && |t.requests| == |s.requests| && forall i :: 0 <= i < |s.requests| ==>
                t.requests[i].key == s.requests[i].key
  {
    hide Inv, PairInv, Apply, Enabled;
    if schedule == [] {
      NoPairYet(s, key);
    } else {
      var front, last := schedule[..|schedule| - 1], schedule[|schedule| - 1];
      var u, t := After(s, front), After(s, schedule);
      RunKeepsInv(s, front);
      RunKeepsPairs(s, front, key);
      StepKeepsKeys(u, last.0, last.1);
      assert AtMostTwo(u, key) by {
        forall x: nat, y: nat, z: nat | SameKey(u, x, y, z) ensures u.requests[x].key != key {
          assert SameKey(s, x, y, z);
        }
      }
      forall i, j | 0 <= i < |t.requests| && 0 <= j < |t.requests| && i != j &&
          t.requests[i].key == t.requests[j].key == key
        ensures PairInv(t, i, j)
      {
        StepKeepsPair(u, last.0, last.1, i, j);
      }
    }
  }

  lemma NoPairYet(s: State, key: string)
    requires Init(s)
    ensures PairsInv(s, key)
  {
  }

  lemma StepKeepsKeys(s: State, n: nat, a: Action)
    requires Enabled(s, n, a)
    ensures var t := Apply(s, n, a);
            |t.requests| == |s.requests| && forall i :: 0 <= i < |s.requests| ==> t.requests[i].key == s.requests[i].key
  {
  }

  /** The states of the run below: the key is not cached, and three of its requests are at the
      given places. */
  function Three(s: State, i: nat, j: nat, k: nat, a: Pc, b: Pc, c: Pc, closings: nat): State
    requires i < j < k < |s.requests|
  {
    var key := s.requests[i].key;
    var first := Request(key, a, closings, Active(a), false);
    var second := Request(key, b, 0, Active(b), Active(b));
    var third := Request(key, c, 0, Active(c), Active(c));
    State(s.requests[j := second][k := third][i := first], map[key := i], s.cached - {key})
  }

  /** The first of three requests is upstream. */
  lemma OneFetches(s: State, i: nat, j: nat, k: nat) returns (schedule: Schedule)
    requires Init(s) && SameKey(s, i, j, k)
    ensures Runs(s, schedule) && After(s, schedule) == Three(s, i, j, k, Fetching, Start, Start, 0)
  {
    schedule := [];
    var t := s;
    schedule, t := Extend(s, schedule, t, 0, Evict(s.requests[i].key));
    schedule, t := Extend(s, schedule, t, i, Miss);
    schedule, t := Extend(s, schedule, t, i, Store);
    assert t == Three(s, i, j, k, Fetching, Start, Start, 0);
  }

  /** The other two wait for it. */
  lemma OneFetchesTwoWait(s: State, i: nat, j: nat, k: nat) returns (schedule: Schedule)
    requires Init(s) && SameKey(s, i, j, k)
    ensures Runs(s, schedule) && After(s, schedule) == Three(s, i, j, k, Fetching, Waiting(i), Waiting(i), 0)
  {
    hide Init, Runs, After;
    schedule := OneFetches(s, i, j, k);
    var t := After(s, schedule);
    schedule, t := Extend(s, schedule, t, j, Miss);
    schedule, t := Extend(s, schedule, t, j, Load);
    assert t == Three(s, i, j, k, Fetching, Waiting(i), Start, 0);
    schedule, t := Extend(s, schedule, t, k, Miss);
    schedule, t := Extend(s, schedule, t, k, Load);
    assert t == Three(s, i, j, k, Fetching, Waiting(i), Waiting(i), 0);
  }

  /** Its fetch fails, and the two look at the cache again. */
  lemma TwoRecheck(s: State, i: nat, j: nat, k: nat) returns (schedule: Schedule)
    requires Init(s) && SameKey(s, i, j, k)
    ensures Runs(s, schedule) && After(s, schedule) == Three(s, i, j, k, Deleting, Rechecking, Rechecking, 1)
  {
    hide Init, Runs, After;
    schedule := OneFetchesTwoWait(s, i, j, k);
    var t := After(s, schedule);
    schedule, t := Extend(s, schedule, t, i, Fetch(false));
    schedule, t := Extend(s, schedule, t, i, Close);
    assert t == Three(s, i, j, k, Deleting, Waiting(i), Waiting(i), 1);
    schedule, t := Extend(s, schedule, t, j, Wake);
    schedule, t := Extend(s, schedule, t, k, Wake);
    assert t == Three(s, i, j, k, Deleting, Rechecking, Rechecking, 1);
  }

  /** With three requests for a key that is not cached, one failed fetch is enough for two of them
      to be upstream together. */
  lemma FailedFetchLetsTwoUpstream(s: State, i: nat, j: nat, k: nat) returns (schedule: Schedule)
    requires Init(s) && SameKey(s, i, j, k)
    ensures Runs(s, schedule)
    ensures Upstream(After(s, schedule), j, s.requests[i].key) && Upstream(After(s, schedule), k, s.requests[i].key)
  {
    hide Init, Runs, After;
    schedule := TwoRecheck(s, i, j, k);
    var t := After(s, schedule);
    schedule, t := Extend(s, schedule, t, j, FallThrough);
    schedule, t := Extend(s, schedule, t, k, FallThrough);
  }

  /** Whatever fetches do and whatever is evicted, at most one request for a key is upstream at any
      time in every run exactly if no more than two requests ask for the key. */
  lemma OneUpstreamIffAtMostTwo(s: State, key: string)
    requires Init(s)
    ensures OneUpstreamAlways(s, key) <==> AtMostTwo(s, key)
  {
    if AtMostTwo(s, key) {
      forall schedule, i: nat, j: nat | Runs(s, schedule) && Upstream(After(s, schedule), i, key) &&
          Upstream(After(s, schedule), j, key)
        ensures i == j
      {
        RunKeepsPairs(s, schedule, key);
        assert i != j ==> PairInv(After(s, schedule), i, j);
      }
    } else {
      var i: nat, j: nat, k: nat :| SameKey(s, i, j, k) && s.requests[i].key == key;
      var schedule := FailedFetchLetsTwoUpstream(s, i, j, k);
      assert Runs(s, schedule) && Upstream(After(s, schedule), j, key) && Upstream(After(s, schedule), k, key);
    }
  }

  lemma Extend(s: State, schedule: Schedule, t: State, i: nat, a: Action) returns (longer: Schedule, u: State)
    requires Runs(s, schedule) && After(s, schedule) == t && Enabled(t, i, a)
    ensures Runs(s, longer) && u == After(s, longer) == Apply(t, i, a)
  {
    longer := schedule + [(i, a)];
    assert longer[..|longer| - 1] == schedule;
    u := Apply(t, i, a);
  }

  // ----- Everyone returns -----

  function Rank(pc: Pc): nat {
    match pc
    case Start => 7
    case Missed => 6
    case Waiting(_) => 5
    case Rechecking => 4
    case Fetching => 3
    case Closing => 2
    case Deleting => 1
    case Returned => 0
  }

  function Work(requests: seq<Request>): nat {
    if requests == [] then 0 else Rank(requests[0].pc) + Work(requests[1..])
  }

  lemma {:induction false} WorkUpdate(requests: seq<Request>, i: nat, r: Request)
    requires i < |requests|
    ensures Work(requests[i := r]) + Rank(requests[i].pc) == Work(requests) + Rank(r.pc)
  {
    if i == 0 {
      assert requests[i := r][1..] == requests[1..];
    } else {
      WorkUpdate(requests[1..], i - 1, r);
      assert requests[i := r][1..] == requests[1..][i - 1 := r];
    }
  }

  lemma StepDoesWork(s: State, i: nat, a: Action)
    requires Enabled(s, i, a)
    ensures Work(Apply(s, i, a).requests) + (if a.Evict? then 0 else 1) <= Work(s.requests)
  {
    var t := Apply(s, i, a);
    if !a.Evict? {
      assert t.requests == s.requests[i := t.requests[i]];
      WorkUpdate(s.requests, i, t.requests[i]);
    }
  }

  /** Evictions aside, every step brings some request closer to its end, and until all have
      returned some request can take one: waiting always ends. */
  lemma NobodyIsStuck(s: State, schedule: Schedule, i: nat) returns (j: nat, a: Action)
    requires Init(s) && Runs(s, schedule) && i < |After(s, schedule).requests| &&
              After(s, schedule).requests[i].pc != Returned
    ensures !a.Evict? && Enabled(After(s, schedule), j, a)
    ensures Work(Apply(After(s, schedule), j, a).requests) < Work(After(s, schedule).requests)
  {
    RunKeepsInv(s, schedule);
    var t := After(s, schedule);
    j, a := SomeoneMoves(t, i);
    StepDoesWork(t, j, a);
  }

  lemma SomeoneMoves(t: State, i: nat) returns (j: nat, a: Action)
    requires Inv(t) && i < |t.requests| && t.requests[i].pc != Returned
    ensures !a.Evict? && Enabled(t, j, a)
  {
    var r := t.requests[i];
    assert LocalInv(r) && WaitInv(t, r);
    j := i;
    match r.pc
    case Start => a := if r.key in t.cached then Hit else Miss;
    case Missed => a := if r.key in t.flights then Load else Store;
    case Rechecking => a := if r.key in t.cached then HitAfterWait else FallThrough;
    case Fetching => a := Fetch(true);
    case Closing => a := Close;
    case Deleting => a := Delete;
    case Waiting(on) =>
      assert LocalInv(t.requests[on]);
      if t.requests[on].closings > 0 {
        a := Wake;
      } else {
        j := on;
        a := if t.requests[on].pc == Fetching then Fetch(true) else Close;
      }
  }
}
