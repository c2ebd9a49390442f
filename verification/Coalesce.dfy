/** Request coalescing in cache/cache.go: concurrent GetOrFetch calls for one key share a single
    fetch. A state machine over every interleaving of the callers' atomic steps. */
module Coalesce {
  import opened Numbers

  /** How a fetch, with the Put that stores what it read, comes to an end. */
  datatype FetchEnd = Stored(path: string) | Errored(message: string) | Panicked(message: string)

  /** The two fields of a call: a path, or an error. */
  datatype Result = Path(path: string) | Failed(message: string)

  /** A panic is recovered and becomes an error. */
  function ResultOf(e: FetchEnd): Result {
    match e
    case Stored(p) => Path(p)
    case Errored(m) => Failed(m)
    case Panicked(m) => Failed("fetch panicked: " + m)
  }

  /** What GetOrFetch returns: an open file, the call's error, or a failure to open the file,
      which can have been evicted. */
  datatype Outcome = Opened(path: string) | Error(message: string) | OpenFailed(path: string)

  function Deliver(r: Result, canOpen: bool): Outcome {
    match r
    case Failed(m) => Error(m)
    case Path(p) => if canOpen then Opened(p) else OpenFailed(p)
  }

  /** What a call with result `r` may hand to a caller: the path or the error, nothing else. */
  predicate Delivers(r: Result, o: Outcome) {
    match r
    case Failed(m) => o == Error(m)
    case Path(p) => o == Opened(p) || o == OpenFailed(p)
  }

  datatype Pc =
    | Start                     // before the cache is checked
    | Missed                    // its own call is made, LoadOrStore comes next
    | Fetching                  // its call is in the table
    | Fetched                   // the result is in the call, the file is opened next
    | Leaving(outcome: Outcome) // the deferred wg.Done comes next
    | Released(outcome: Outcome)// the deferred Delete comes next
    | Waiting(call: nat)        // in Wait on another caller's call
    | Returned(outcome: Outcome)

  /** A caller. It makes one call of its own, which is therefore named by the caller's index;
      `result` and `dones` are that call's fields. `joined` records the call it waited on. */
  datatype Caller = Caller(key: string, pc: Pc, result: Option<Result>, dones: nat, joined: Option<nat>)

  datatype State = State(callers: seq<Caller>, calls: map<string, nat>)

  datatype Action =
    | Hit(path: string) | Miss | Store | Join
    | Fetch(end: FetchEnd) | Open(canOpen: bool) | Done | Delete
    | Wake(canOpen: bool)

  predicate Enabled(s: State, i: nat, a: Action) {
    i < |s.callers| &&
    var c := s.callers[i];
    match a
    case Hit(_) => c.pc == Start
    case Miss => c.pc == Start
    case Store => c.pc == Missed && c.key !in s.calls
    case Join => c.pc == Missed && c.key in s.calls
    case Fetch(_) => c.pc == Fetching
    case Open(_) => c.pc == Fetched && c.result.Some?
    case Done => c.pc.Leaving?
    case Delete => c.pc.Released?
    case Wake(_) =>
      c.pc.Waiting? && c.pc.call < |s.callers| &&
      s.callers[c.pc.call].dones > 0 && s.callers[c.pc.call].result.Some?
  }

  function Apply(s: State, i: nat, a: Action): State
    requires Enabled(s, i, a)
  {
    var c := s.callers[i];
    match a
    case Hit(p) => Move(s, i, c.(pc := Returned(Opened(p))))
    case Miss => Move(s, i, c.(pc := Missed))
    case Store => Move(s, i, c.(pc := Fetching)).(calls := s.calls[c.key := i])
    case Join => Move(s, i, c.(pc := Waiting(s.calls[c.key]), joined := Some(s.calls[c.key])))
    case Fetch(e) => Move(s, i, c.(pc := Fetched, result := Some(ResultOf(e))))
    case Open(can) => Move(s, i, c.(pc := Leaving(Deliver(c.result.value, can))))
    case Done => Move(s, i, c.(pc := Released(c.pc.outcome), dones := c.dones + 1))
    case Delete => Move(s, i, c.(pc := Returned(c.pc.outcome))).(calls := s.calls - {c.key})
    case Wake(can) => Move(s, i, c.(pc := Returned(Deliver(s.callers[c.pc.call].result.value, can))))
  }

  function Move(s: State, i: nat, c: Caller): State
    requires i < |s.callers|
  {
    s.(callers := s.callers[i := c])
  }

  predicate Init(s: State) {
    s.calls == map[] && forall i :: 0 <= i < |s.callers| ==>
        s.callers[i] == Caller(s.callers[i].key, Start, None, 0, None)
  }

  /** A schedule says which caller moves next, and how. */
  type Schedule = seq<(nat, Action)>

  predicate Runs(s: State, schedule: Schedule)
    decreases |schedule|, 0
  {
    schedule == [] ||
    var front, last := schedule[..|schedule| - 1], schedule[|schedule| - 1];
    Runs(s, front) && Enabled(After(s, front), last.0, last.1)
  }

  function After(s: State, schedule: Schedule): State
    requires Runs(s, schedule)
    decreases |schedule|, 1
  {
    if schedule == [] then s
    else
      var front, last := schedule[..|schedule| - 1], schedule[|schedule| - 1];
      Apply(After(s, front), last.0, last.1)
  }

  // ----- The invariant -----

  /** Between storing its call in the table and deleting it. */
  predicate Leads(c: Caller) {
    c.pc.Fetching? || c.pc.Fetched? || c.pc.Leaving? || c.pc.Released?
  }

  /** The caller's own fields agree with where it is. `dones` tells a finished leader apart. */
  predicate LocalInv(c: Caller) {
    match c.pc
    case Start => c.result == None && c.dones == 0 && c.joined == None
    case Missed => c.result == None && c.dones == 0 && c.joined == None
    case Fetching => c.result == None && c.dones == 0 && c.joined == None
    case Fetched => c.result.Some? && c.dones == 0 && c.joined == None
    case Leaving(o) => c.result.Some? && Delivers(c.result.value, o) && c.dones == 0 && c.joined == None
    case Released(o) => c.result.Some? && Delivers(c.result.value, o) && c.dones == 1 && c.joined == None
    case Waiting(w) => c.result == None && c.dones == 0 && c.joined == Some(w)
    case Returned(o) =>
      && (c.dones == 0 || (c.dones == 1 && c.joined == None && c.result.Some? && Delivers(c.result.value, o)))
      && (c.dones == 0 ==> c.result == None)
  }

  /** A call that someone has joined: its owner has the same key and is leading, or finished. */
  predicate JoinedInv(s: State, c: Caller)
  {
    c.joined.Some? ==>
      && c.joined.value < |s.callers|
      && var owner := s.callers[c.joined.value];
         && owner.key == c.key
         && (Leads(owner) || owner.dones == 1)
         && (c.pc.Returned? ==>
               owner.dones == 1 && owner.result.Some? && Delivers(owner.result.value, c.pc.outcome))
  }

  ghost predicate Inv(s: State) {
    && (forall i :: 0 <= i < |s.callers| ==> LocalInv(s.callers[i]))
    && (forall i :: 0 <= i < |s.callers| ==> JoinedInv(s, s.callers[i]))
    && (forall i :: 0 <= i < |s.callers| && Leads(s.callers[i]) ==>
         s.callers[i].key in s.calls && s.calls[s.callers[i].key] == i)
    && (forall k :: k in s.calls ==>
          s.calls[k] < |s.callers| && s.callers[s.calls[k]].key == k && Leads(s.callers[s.calls[k]]))
  }

  lemma StepKeepsInv(s: State, i: nat, a: Action)
    requires Inv(s) && Enabled(s, i, a)
    ensures Inv(Apply(s, i, a))
  {
    hide Apply, Enabled, LocalInv, JoinedInv;
    StepKeepsLocal(s, i, a);
    StepKeepsJoined(s, i, a);
    StepKeepsTable(s, i, a);
  }

  lemma StepKeepsLocal(s: State, i: nat, a: Action)
    requires Inv(s) && Enabled(s, i, a)
    ensures var t := Apply(s, i, a); forall j :: 0 <= j < |t.callers| ==> LocalInv(t.callers[j])
  {
    var t := Apply(s, i, a);
    MoverLocal(s, i, a);
    forall j | 0 <= j < |t.callers| && j != i ensures t.callers[j] == s.callers[j] { }
  }

  lemma StepKeepsJoined(s: State, i: nat, a: Action)
    requires Inv(s) && Enabled(s, i, a)
    ensures var t := Apply(s, i, a); forall j :: 0 <= j < |t.callers| ==> JoinedInv(t, t.callers[j])
  {
    var t := Apply(s, i, a);
    forall j | 0 <= j < |t.callers| ensures JoinedInv(t, t.callers[j]) {
      assert LocalInv(s.callers[i]) && JoinedInv(s, s.callers[j]) && JoinedInv(s, s.callers[i]);
    }
  }

  lemma StepKeepsTable(s: State, i: nat, a: Action)
    requires Inv(s) && Enabled(s, i, a)
    ensures var t := Apply(s, i, a);
            && (forall j :: 0 <= j < |t.callers| && Leads(t.callers[j]) ==>
                 t.callers[j].key in t.calls && t.calls[t.callers[j].key] == j)
            && (forall k :: k in t.calls ==>
                  t.calls[k] < |t.callers| && t.callers[t.calls[k]].key == k && Leads(t.callers[t.calls[k]]))
  {
    hide JoinedInv;
    var t := Apply(s, i, a);
    forall j | 0 <= j < |t.callers| && j != i ensures t.callers[j] == s.callers[j] { }
    forall k | k in t.calls
      ensures t.calls[k] < |t.callers| && t.callers[t.calls[k]].key == k && Leads(t.callers[t.calls[k]])
    {
      if k in s.calls && s.calls[k] == i { assert k == s.callers[i].key; }
    }
  }

  lemma MoverLocal(s: State, i: nat, a: Action)
    requires Inv(s) && Enabled(s, i, a)
    ensures LocalInv(Apply(s, i, a).callers[i])
  {
    assert LocalInv(s.callers[i]);
  }

  lemma {:induction false} RunKeepsInv(s: State, schedule: Schedule)
    requires Init(s) && Runs(s, schedule)
    ensures Inv(After(s, schedule))
  {
    if schedule != [] {
      var front, last := schedule[..|schedule| - 1], schedule[|schedule| - 1];
      RunKeepsInv(s, front);
      StepKeepsInv(After(s, front), last.0, last.1);
    }
  }

  // ----- Main results: every run from a state where nobody has begun -----

  /** At most one caller per key is between storing a call and deleting it; so at most one fetch
      per key runs at any time, and the table never names anyone else. */
  lemma OneFetchPerKey(s: State, schedule: Schedule, i: nat, j: nat)
    requires Init(s) && Runs(s, schedule) && i < |s.callers| && j < |s.callers|
    ensures |After(s, schedule).callers| == |s.callers|
    ensures var t := After(s, schedule);
            Leads(t.callers[i]) && Leads(t.callers[j]) && t.callers[i].key == t.callers[j].key ==> i == j
  {
    RunKeepsInv(s, schedule);
    SameCallers(s, schedule);
  }

  lemma StepKeepsCallers(s: State, i: nat, a: Action)
    requires Inv(s) && Enabled(s, i, a)
    ensures var t := Apply(s, i, a);
            |t.callers| == |s.callers| &&
            forall j :: 0 <= j < |s.callers| ==>
              t.callers[j].key == s.callers[j].key &&
              (s.callers[j].result.Some? ==> t.callers[j].result == s.callers[j].result)
  {
    assert LocalInv(s.callers[i]);
  }

  lemma {:induction false} SameCallers(s: State, schedule: Schedule)
    requires Init(s) && Runs(s, schedule)
    ensures |After(s, schedule).callers| == |s.callers|
    ensures forall i :: 0 <= i < |s.callers| ==> After(s, schedule).callers[i].key == s.callers[i].key
  {
    hide Enabled, Apply, Inv;
    if schedule != [] {
      var front, last := schedule[..|schedule| - 1], schedule[|schedule| - 1];
      SameCallers(s, front);
      RunKeepsInv(s, front);
      StepKeepsCallers(After(s, front), last.0, last.1);
    }
  }

  /** A caller that joined a call returns only after the leader has called Done. It returns that call's
      path or error and nothing else, also if it arrived between Done and Delete. A leader
      returns its own. */
  lemma JoinersReceiveLeadersResult(s: State, schedule: Schedule, i: nat)
    requires Init(s) && Runs(s, schedule) && i < |After(s, schedule).callers|
    ensures var t := After(s, schedule);
            var c := t.callers[i];
            && (c.pc.Returned? && c.joined.Some? ==>
                  && c.joined.value < |t.callers| && t.callers[c.joined.value].key == c.key
                  && t.callers[c.joined.value].dones == 1 && t.callers[c.joined.value].result.Some?
                  && Delivers(t.callers[c.joined.value].result.value, c.pc.outcome))
            && (c.pc.Returned? && c.dones == 1 ==> c.result.Some? && Delivers(c.result.value, c.pc.outcome))
  {
    RunKeepsInv(s, schedule);
    var t := After(s, schedule);
    assert JoinedInv(t, t.callers[i]) && LocalInv(t.callers[i]);
  }

  /** Once set, a call's result never changes, so everyone who joins it is told the same. */
  lemma {:induction false} ResultIsFinal(s: State, schedule: Schedule, k: nat, i: nat)
    requires Init(s) && Runs(s, schedule) && k <= |schedule| && Runs(s, schedule[..k])
    requires i < |s.callers| && |After(s, schedule[..k]).callers| == |After(s, schedule).callers| == |s.callers|
    requires After(s, schedule[..k]).callers[i].result.Some?
    ensures After(s, schedule).callers[i].result == After(s, schedule[..k]).callers[i].result
    decreases |schedule|
  {
    hide Enabled, Apply, Inv;
    if k < |schedule| {
      var front, last := schedule[..|schedule| - 1], schedule[|schedule| - 1];
      assert front[..k] == schedule[..k];
      SameCallers(s, front);
      ResultIsFinal(s, front, k, i);
      RunKeepsInv(s, front);
      StepKeepsCallers(After(s, front), last.0, last.1);
    } else {
      assert schedule[..k] == schedule;
    }
  }

  /** Done is called at most once on a call, by the caller that made it, and Delete only removes
      the deleter's own call. */
  lemma DoneOnceDeleteOwn(s: State, schedule: Schedule, i: nat)
    requires Init(s) && Runs(s, schedule) && i < |After(s, schedule).callers|
    ensures After(s, schedule).callers[i].dones <= 1
    ensures Enabled(After(s, schedule), i, Done) ==> After(s, schedule).callers[i].dones == 0
    ensures Enabled(After(s, schedule), i, Delete) ==>
              var t := After(s, schedule);
              t.callers[i].key in t.calls && t.calls[t.callers[i].key] == i
  {
    RunKeepsInv(s, schedule);
    var t := After(s, schedule);
    assert LocalInv(t.callers[i]);
  }

  // ----- What callers are told, from the steps of the run alone -----

  /** Some step of the caller brought the fetch of its call to this end. */
  predicate FetchEnded(schedule: Schedule, w: nat, e: FetchEnd) {
    (w, Fetch(e)) in schedule
  }

  /** What a caller returns when the call's fetch ended like this and opening the file succeeds or not:
      the file, or the fetch's own error; a panic has become an error that quotes it. */
  predicate Told(e: FetchEnd, canOpen: bool, o: Outcome) {
    match e
    case Stored(p) => o == if canOpen then Opened(p) else OpenFailed(p)
    case Errored(m) => o == Error(m)
    case Panicked(m) => o == Error("fetch panicked: " + m)
  }

  /** The call `w` ended like `e`, this caller made it or joined it, and opened the file or not. */
  predicate ToldBy(schedule: Schedule, i: nat, c: Caller, w: nat, e: FetchEnd, canOpen: bool, o: Outcome) {
    && FetchEnded(schedule, w, e) && Told(e, canOpen, o)
    && ((w == i && c.joined == None && (i, Open(canOpen)) in schedule) ||
        (c.joined == Some(w) && (i, Wake(canOpen)) in schedule))
  }

  ghost predicate HasSource(schedule: Schedule, i: nat, c: Caller, o: Outcome) {
    || (exists p :: (i, Hit(p)) in schedule && c.joined == None && o == Opened(p))
    || (exists w: nat, e, can :: ToldBy(schedule, i, c, w, e, can, o))
  }

  /** A call's result, if there is one, is that of its one fetch. */
  ghost predicate FetchInv(schedule: Schedule, i: nat, c: Caller) {
    && (c.result.None? ==> forall e :: !FetchEnded(schedule, i, e))
    && (c.result.Some? ==> exists e :: FetchEnded(schedule, i, e) && IsResult(e, c.result.value))
    && (forall e, f :: FetchEnded(schedule, i, e) && FetchEnded(schedule, i, f) ==> e == f)
  }

  predicate IsResult(e: FetchEnd, r: Result) {
    match e
    case Stored(p) => r == Path(p)
    case Errored(m) => r == Failed(m)
    case Panicked(m) => r == Failed("fetch panicked: " + m)
  }

  ghost predicate SourceInv(schedule: Schedule, i: nat, c: Caller) {
    match c.pc
    case Leaving(o) => HasSource(schedule, i, c, o)
    case Released(o) => HasSource(schedule, i, c, o)
    case Returned(o) => HasSource(schedule, i, c, o)
    case _ => true
  }

  lemma FetchStep(front: Schedule, s: State, i: nat, a: Action, j: nat)
    requires Inv(s) && Enabled(s, i, a) && j < |s.callers| && FetchInv(front, j, s.callers[j])
    ensures FetchInv(front + [(i, a)], j, Apply(s, i, a).callers[j])
  {
    hide JoinedInv, Deliver;
    var longer, t := front + [(i, a)], Apply(s, i, a);
    assert LocalInv(s.callers[i]) && LocalInv(s.callers[j]);
    forall e ensures FetchEnded(longer, j, e) <==> FetchEnded(front, j, e) || (j == i && a == Fetch(e)) { }
    if s.callers[j].result.Some? {
      var e :| FetchEnded(front, j, e) && IsResult(e, s.callers[j].result.value);
      assert FetchEnded(longer, j, e);
    }
    if j == i && a.Fetch? { assert FetchEnded(longer, j, a.end); }
  }

  lemma SourceStays(front: Schedule, step: (nat, Action), i: nat, c: Caller, d: Caller, o: Outcome)
    requires HasSource(front, i, c, o) && d.joined == c.joined
    ensures HasSource(front + [step], i, d, o)
  {
    var longer := front + [step];
    if p :| (i, Hit(p)) in front && c.joined == None && o == Opened(p) {
      assert (i, Hit(p)) in longer;
    } else {
      var w: nat, e, can :| ToldBy(front, i, c, w, e, can, o);
      assert ToldBy(longer, i, d, w, e, can, o);
    }
  }

  lemma SourceStep(front: Schedule, s: State, i: nat, a: Action, j: nat)
    requires Inv(s) && Enabled(s, i, a) && j < |s.callers| && SourceInv(front, j, s.callers[j])
    requires forall k :: 0 <= k < |s.callers| ==> FetchInv(front, k, s.callers[k])
    ensures SourceInv(front + [(i, a)], j, Apply(s, i, a).callers[j])
  {
    hide HasSource, FetchInv;
    var longer, t := front + [(i, a)], Apply(s, i, a);
    var c, d := s.callers[j], t.callers[j];
    assert LocalInv(c) && JoinedInv(s, c);
    match c.pc
    case Leaving(o) => SourceStays(front, (i, a), j, c, d, o);
    case Released(o) => SourceStays(front, (i, a), j, c, d, o);
    case Returned(o) => SourceStays(front, (i, a), j, c, d, o);
    case Start => if j == i && a.Hit? { HitIsSource(longer, j, d, a.path); }
    case Missed =>
    case Fetching =>
    case Fetched =>
      if j == i {
        ResultHasFetch(front, j, c);
        OpenIsSource(front, i, a, j, c.result.value, d, a.canOpen);
      }
    case Waiting(w) =>
      if j == i {
        ResultHasFetch(front, w, s.callers[w]);
        OpenIsSource(front, i, a, w, s.callers[w].result.value, d, a.canOpen);
      }
  }

  lemma ResultHasFetch(schedule: Schedule, i: nat, c: Caller)
    requires FetchInv(schedule, i, c) && c.result.Some?
    ensures exists e :: FetchEnded(schedule, i, e) && IsResult(e, c.result.value)
  {
  }

  lemma HitIsSource(schedule: Schedule, i: nat, c: Caller, p: string)
    requires (i, Hit(p)) in schedule && c.joined == None
    ensures HasSource(schedule, i, c, Opened(p))
  {
  }

  lemma OpenIsSource(front: Schedule, i: nat, a: Action, w: nat, r: Result, c: Caller, can: bool)
    requires (a == Open(can) && w == i && c.joined == None) || (a == Wake(can) && c.joined == Some(w))
    requires exists e :: FetchEnded(front, w, e) && IsResult(e, r)
    ensures HasSource(front + [(i, a)], i, c, Deliver(r, can))
  {
    var e :| FetchEnded(front, w, e) && IsResult(e, r);
    assert ToldBy(front + [(i, a)], i, c, w, e, can, Deliver(r, can));
  }

  lemma {:induction false} RunKeepsSources(s: State, schedule: Schedule)
    requires Init(s) && Runs(s, schedule)
    ensures var t := After(s, schedule);
            forall i :: 0 <= i < |t.callers| ==>
                FetchInv(schedule, i, t.callers[i]) && SourceInv(schedule, i, t.callers[i])
  {
    hide Enabled, Apply, Inv, FetchInv, SourceInv;
    if schedule == [] {
      NothingHappened(s);
    } else {
      var front, last := schedule[..|schedule| - 1], schedule[|schedule| - 1];
      var u, t := After(s, front), After(s, schedule);
      assert schedule == front + [(last.0, last.1)];
      RunKeepsInv(s, front);
      RunKeepsSources(s, front);
      SameCallers(s, front);
      SameCallers(s, schedule);
      forall i | 0 <= i < |t.callers|
        ensures FetchInv(schedule, i, t.callers[i]) && SourceInv(schedule, i, t.callers[i])
      {
        FetchStep(front, u, last.0, last.1, i);
        SourceStep(front, u, last.0, last.1, i);
      }
    }
  }

  lemma NothingHappened(s: State)
    requires Init(s)
    ensures forall i :: 0 <= i < |s.callers| ==> FetchInv([], i, s.callers[i]) && SourceInv([], i, s.callers[i])
  {
  }

  /** In every run a caller that has returned was either served from the cache, and then it has that
      file; or it made a call or joined one whose fetch has ended, once: it has the file that was
      stored, or failed to open it, or it has the fetch's error or the panic's. */
  lemma CallersAreToldHowTheFetchEnded(s: State, schedule: Schedule, i: nat)
    requires Init(s) && Runs(s, schedule) && i < |After(s, schedule).callers|
    requires After(s, schedule).callers[i].pc.Returned?
    ensures var c := After(s, schedule).callers[i];
            var o := c.pc.outcome;
            || (exists p :: (i, Hit(p)) in schedule && c.joined == None && o == Opened(p))
            || (exists w: nat, e, can ::
                  ToldBy(schedule, i, c, w, e, can, o) && forall f :: FetchEnded(schedule, w, f) ==> f == e)
  {
    RunKeepsSources(s, schedule);
    RunKeepsInv(s, schedule);
    var t := After(s, schedule);
    var c := t.callers[i];
    assert SourceInv(schedule, i, c) && JoinedInv(t, c);
    if w: nat, e, can :| ToldBy(schedule, i, c, w, e, can, c.pc.outcome) {
      assert FetchInv(schedule, w, t.callers[w]);
    }
  }

  // ----- Everyone returns -----

  function Rank(pc: Pc): nat {
    match pc
    case Start => 6
    case Missed => 5
    case Fetching => 4
    case Fetched => 3
    case Leaving(_) => 2
    case Released(_) => 1
    case Waiting(_) => 1
    case Returned(_) => 0
  }

  function Work(callers: seq<Caller>): nat {
    if callers == [] then 0 else Rank(callers[0].pc) + Work(callers[1..])
  }

  lemma {:induction false} WorkUpdate(callers: seq<Caller>, i: nat, c: Caller)
    requires i < |callers|
    ensures Work(callers[i := c]) + Rank(callers[i].pc) == Work(callers) + Rank(c.pc)
  {
    if i == 0 {
      assert callers[i := c][1..] == callers[1..];
    } else {
      WorkUpdate(callers[1..], i - 1, c);
      assert callers[i := c][1..] == callers[1..][i - 1 := c];
    }
  }

  lemma {:induction false} WorkAtStart(callers: seq<Caller>)
    requires forall i :: 0 <= i < |callers| ==> callers[i].pc == Start
    ensures Work(callers) == 6 * |callers|
  {
    if callers != [] { WorkAtStart(callers[1..]); }
  }

  lemma StepDoesWork(s: State, i: nat, a: Action)
    requires Enabled(s, i, a)
    ensures Work(Apply(s, i, a).callers) < Work(s.callers)
  {
    var t := Apply(s, i, a);
    assert t.callers == s.callers[i := t.callers[i]];
    WorkUpdate(s.callers, i, t.callers[i]);
  }

  lemma {:induction false} RunLength(s: State, schedule: Schedule)
    requires Init(s) && Runs(s, schedule)
    ensures |schedule| + Work(After(s, schedule).callers) <= 6 * |s.callers|
  {
    if schedule == [] {
      WorkAtStart(s.callers);
    } else {
      var front, last := schedule[..|schedule| - 1], schedule[|schedule| - 1];
      RunLength(s, front);
      StepDoesWork(After(s, front), last.0, last.1);
    }
  }

  /** While anyone has not returned, somebody can move: nobody waits for a caller that is not
      able to move itself. */
  lemma NoDeadlock(s: State, i: nat) returns (j: nat, a: Action)
    requires Inv(s) && i < |s.callers| && !s.callers[i].pc.Returned?
    ensures Enabled(s, j, a)
  {
    var c := s.callers[i];
    assert LocalInv(c) && JoinedInv(s, c);
    j := i;
    match c.pc
    case Start => a := Miss;
    case Missed => a := if c.key in s.calls then Join else Store;
    case Fetching => a := Fetch(Errored(""));
    case Fetched => a := Open(true);
    case Leaving(_) => a := Done;
    case Released(_) => a := Delete;
    case Waiting(w) =>
      var owner := s.callers[w];
      assert LocalInv(owner);
      if owner.dones == 1 {
        a := Wake(true);
      } else {
        j := w;
        a := match owner.pc
          case Fetching => Fetch(Errored(""))
          case Fetched => Open(true)
          case _ => Done;
      }
  }

  /** If fetches return, everyone returns: no run takes more than six steps per caller, and a run
      that cannot be continued has left nobody waiting. */
  lemma EveryoneReturns(s: State, schedule: Schedule)
    requires Init(s) && Runs(s, schedule)
    ensures |schedule| <= 6 * |s.callers|
    ensures (forall j: nat, a :: !Enabled(After(s, schedule), j, a)) ==>
              forall i :: 0 <= i < |s.callers| ==>
                  i < |After(s, schedule).callers| && After(s, schedule).callers[i].pc.Returned?
  {
    RunLength(s, schedule);
    RunKeepsInv(s, schedule);
    SameCallers(s, schedule);
    var t := After(s, schedule);
    forall i | 0 <= i < |s.callers| && !t.callers[i].pc.Returned?
      ensures exists j: nat, a :: Enabled(t, j, a)
    {
      var j, a := NoDeadlock(t, i);
    }
  }
}
