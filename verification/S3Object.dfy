/** The cache of one S3 object in one scope (s3/server.go, s3/entry.go): two records, metadata and
    body, which can be evicted independently; freshness, revalidation, serving stale, and
    invalidation. A request is one step. Validation is section 4.3 of RFC 9111. */
module S3Object {
  import opened Numbers
  import opened Text
  import S3Ttl

  /** A version of the object at the upstream, with its two validators (empty when absent). */
  datatype Object = Object(content: string, etag: string, lastModified: string)

  datatype Meta = Meta(etag: string, lastModified: string, storedAt: int, freshUntil: int, hasBody: bool, bodySize: nat)

  /** The two cache records. */
  datatype Records = Records(meta: Option<Meta>, body: Option<string>)

  datatype Config = Config(lifetimes: S3Ttl.Lifetimes, staleIfError: nat, respectPrivate: bool)
  {
    predicate Valid() { lifetimes.Valid() }
  }

  datatype Verb = Get | Head

  /** What the upstream answers: no connection, 304, 200, 404 or 410, or any other status. */
  datatype Reply =
    | NoAnswer
    | NotModified(etag: string, lastModified: string, cacheControl: string)
    | Complete(version: Object, cacheControl: string, setCookie: bool)
    | Gone
    | Other

  /** How far storing a streamed body gets: not tried, or given up before the file is complete
      (too long, client gone, disk error); not renamed; in place; or in place when the process
      stops, before the metadata is written. A stop elsewhere leaves the records as some other
      fault does: without the body as NotRenamed, without the metadata as DropMeta below. */
  datatype StreamEnd = GivenUp | NotRenamed | InPlace | Stopped

  /** What fails on the cache side during the request. */
  datatype Faults = Faults(openFails: bool, metaWriteFails: bool, stream: StreamEnd)

  /** `candidates` is the client's If-None-Match list. */
  datatype Request = Request(verb: Verb, hasRange: bool, candidates: seq<string>, hasVersion: bool, reply: Reply,
      faults: Faults)

  datatype Kind = Fresh | Revalidated | Stale

  datatype Output =
    | Body(kind: Kind, content: string, size: nat) // the cached body, or ranges of it
    | Headers(kind: Kind)                          // a HEAD answered from the metadata
    | Unchanged                                    // 304 to the client
    | Forwarded                                    // the upstream's own response
    | BadGateway
    | Nothing                                      // serving failed before anything was written

  // ----- The pieces -----

  /** loadMetadata: metadata that promises a body which is not there is removed. */
  function Load(r: Records): (Records, Option<Meta>) {
    if r.meta.None? then (r, None)
    else if r.meta.value.hasBody && r.body.None? then (r.(meta := None), None)
    else (r, r.meta)
  }

  predicate Usable(req: Request, m: Meta) {
    req.verb == Head || m.hasBody
  }

  predicate ClientHas(req: Request, m: Meta) {
    m.etag != "" && exists i :: 0 <= i < |req.candidates| && (req.candidates[i] == "*" || req.candidates[i] == m.etag)
  }

  function ServeEntry(kind: Kind, req: Request, m: Meta, body: Option<string>): Output {
    if ClientHas(req, m) then Unchanged
    else if req.verb == Head then Headers(kind)
    else if !m.hasBody || body.None? || req.faults.openFails then Nothing
    else Body(kind, body.value, m.bodySize)
  }

  predicate Contains(s: string, part: string) {
    exists i :: 0 <= i <= |s| && part <= s[i..]
  }

  predicate ShouldStore(cfg: Config, req: Request) {
    && req.reply.Complete? && !req.hasRange && !req.reply.setCookie
    && !Contains(Lower(req.reply.cacheControl), "no-store")
    && !(cfg.respectPrivate && Contains(Lower(req.reply.cacheControl), "private"))
  }

  predicate CanRevalidate(stale: Option<Meta>, req: Request) {
    stale.Some? && Usable(req, stale.value) && (stale.value.etag != "" || stale.value.lastModified != "")
  }

  predicate CanServeStale(cfg: Config, now: int, stale: Option<Meta>) {
    stale.Some? && cfg.staleIfError > 0 && now < stale.value.freshUntil + cfg.staleIfError
  }

  function Refreshed(cfg: Config, now: int, m: Meta, req: Request): Meta
    requires req.reply.NotModified?
  {
    m.(storedAt := now,
       freshUntil := now + S3Ttl.Ttl(cfg.lifetimes, req.reply.cacheControl, req.hasVersion),
       etag := if req.reply.etag != "" then req.reply.etag else m.etag,
       lastModified := if req.reply.lastModified != "" then req.reply.lastModified else m.lastModified)
  }

  function MetaOf(cfg: Config, now: int, req: Request, hasBody: bool): Meta
    requires req.reply.Complete?
  {
    var o := req.reply.version;
    Meta(o.etag, o.lastModified, now, now + S3Ttl.Ttl(cfg.lifetimes, req.reply.cacheControl, req.hasVersion),
         hasBody, if hasBody then |o.content| else 0)
  }

  /** streamAndStore: the old body goes first, and without its metadata the new one goes too. */
  function StreamAndStore(cfg: Config, now: int, r: Records, req: Request): Records
    requires req.reply.Complete?
  {
    match req.faults.stream
    case GivenUp => r
    case NotRenamed => r.(body := None)
    case InPlace =>
      if req.faults.metaWriteFails then r.(body := None)
      else Records(Some(MetaOf(cfg, now, req, true)), Some(req.reply.version.content))
    case Stopped => r.(body := Some(req.reply.version.content))
  }

  function FetchAndMaybeStore(cfg: Config, now: int, r: Records, stale: Option<Meta>, req: Request): (Records, Output) {
    match req.reply
    case NoAnswer =>
      if CanServeStale(cfg, now, stale) && Usable(req, stale.value) then
          (r, ServeEntry(Stale, req, stale.value, r.body))
      else (r, BadGateway)
    case NotModified(_, _, _) =>
      if CanRevalidate(stale, req) then
        var m := Refreshed(cfg, now, stale.value, req);
        (if req.faults.metaWriteFails then r else r.(meta := Some(m)), ServeEntry(Revalidated, req, m, r.body))
      else (r, Forwarded)
    case Gone => (Records(None, None), Forwarded)
    case Other => (r, Forwarded)
    case Complete(_, _, _) =>
      if !ShouldStore(cfg, req) then (r, Forwarded)
      else if req.verb == Head then
        (Records(if req.faults.metaWriteFails then r.meta else Some(MetaOf(cfg, now, req, false)), None), Forwarded)
      else (StreamAndStore(cfg, now, r, req), Forwarded)
  }

  /** A hit that cannot be served removes the entry and goes upstream. */
  function ServeCacheable(cfg: Config, now: int, r: Records, req: Request): (Records, Output) {
    var (r1, m) := Load(r);
    if m.Some? && Usable(req, m.value) && now < m.value.freshUntil then
      var out := ServeEntry(Fresh, req, m.value, r1.body);
      if out != Nothing then (r1, out) else FetchAndMaybeStore(cfg, now, Records(None, None), None, req)
    else FetchAndMaybeStore(cfg, now, r1, m, req)
  }

  /** The request finds a fresh entry that it can use. */
  predicate Hits(now: int, r: Records, req: Request) {
    var m := Load(r).1;
    m.Some? && Usable(req, m.value) && now < m.value.freshUntil
  }

  predicate ServedFromCache(now: int, r: Records, req: Request) {
    Hits(now, r, req) && ServeEntry(Fresh, req, Load(r).1.value, Load(r).0.body) != Nothing
  }

  /** The metadata a request would revalidate. */
  function StaleMeta(now: int, r: Records, req: Request): Option<Meta> {
    if Hits(now, r, req) then None else Load(r).1
  }

  /** The records as they are when the request goes upstream. */
  function Remaining(now: int, r: Records, req: Request): Records {
    if Hits(now, r, req) then Records(None, None) else Load(r).0
  }

  // ----- The world: the upstream's history and the records -----

  /** upstream[t] is the object at time t, if there was one; the present is the last time.
      `barrier` is the time of the last successful mutation through the proxy. */
  datatype World = World(upstream: seq<Option<Object>>, barrier: nat, records: Records)
  {
    function Now(): int { |upstream| - 1 }
  }

  datatype Event =
    | Tick(next: Option<Object>)                  // time passes; the upstream may change
    | DropMeta | DropBody                         // eviction or expiry of one record
    | Ask(req: Request)
    | Mutate(next: Option<Object>, success: bool) // PUT, POST or DELETE through the proxy

  function Step(cfg: Config, w: World, e: Event): (World, Output) {
    match e
    case Tick(next) => (w.(upstream := w.upstream + [next]), Nothing)
    case DropMeta => (w.(records := w.records.(meta := None)), Nothing)
    case DropBody => (w.(records := w.records.(body := None)), Nothing)
    case Ask(req) =>
      var (r, out) := ServeCacheable(cfg, w.Now(), w.records, req);
      (w.(records := r), out)
    case Mutate(next, success) =>
      if success then (World(w.upstream + [next], |w.upstream|, Records(None, None)), Forwarded)
      else (w.(upstream := w.upstream + [next]), Forwarded)
  }

  /** The conditional headers that go upstream. */
  function SentCandidates(stale: Option<Meta>, req: Request): seq<string> {
    if CanRevalidate(stale, req) && stale.value.etag != "" then [stale.value.etag] else req.candidates
  }

  predicate Answers304(current: Object, candidates: seq<string>, since: string) {
    if candidates != [] then
      exists i :: 0 <= i < |candidates| &&
          (candidates[i] == "*" || (candidates[i] != "" && candidates[i] == current.etag))
    else since != "" && since == current.lastModified
  }

  /** A client's own If-None-Match reaches the upstream only when the entry has no ETag. */
  predicate NoForeignValidator(stale: Option<Meta>, req: Request) {
    CanRevalidate(stale, req) ==> stale.value.etag != "" || req.candidates == []
  }

  /** The process does not stop between a new body and an old metadata record that promises other
      bytes. */
  predicate NotCut(r: Records, req: Request) {
    req.faults.stream == Stopped && req.reply.Complete? && r.meta.Some? && r.meta.value.hasBody ==>
      r.body == Some(req.reply.version.content)
  }

  /** The upstream answers truthfully for the object it has now, and to the proxy's validators. */
  predicate Truthful(w: World, stale: Option<Meta>, req: Request)
    requires w.upstream != []
  {
    var current := w.upstream[w.Now()];
    && NoForeignValidator(stale, req) && NotCut(w.records, req)
    && match req.reply
       case Complete(o, _, _) => current == Some(o)
       case NotModified(etag, lastModified, _) =>
         CanRevalidate(stale, req) ==>
           && current.Some?
           && Answers304(current.value, SentCandidates(stale, req), stale.value.lastModified)
           && (etag == "" || etag == current.value.etag)
           && (lastModified == "" || lastModified == current.value.lastModified)
       case _ => true
  }

  predicate Allowed(w: World, e: Event)
    requires w.upstream != []
  {
    e.Ask? ==>
      var now, req := w.Now(), e.req;
      Truthful(w.(records := Remaining(now, w.records, req)), StaleMeta(now, w.records, req), req)
  }

  /** A validator that is present names one content for ever. */
  ghost predicate ValidatorsIdentify(upstream: seq<Option<Object>>) {
    forall t, u :: 0 <= t < |upstream| && 0 <= u < |upstream| && upstream[t].Some? && upstream[u].Some? ==>
      var a, b := upstream[t].value, upstream[u].value;
      a.etag != "*" && (a.etag != "" && a.etag == b.etag ==> a.content == b.content) &&
      (a.lastModified != "" && a.lastModified == b.lastModified ==> a.content == b.content)
  }

  function Initial(first: Option<Object>): World {
    World([first], 0, Records(None, None))
  }

  function After(cfg: Config, first: Option<Object>, events: seq<Event>): (w: World)
    ensures w.upstream != []
  {
    if events == [] then Initial(first)
    else Step(cfg, After(cfg, first, events[..|events| - 1]), events[|events| - 1]).0
  }

  /** Every request is answered truthfully and not cut short between the records. */
  predicate Runs(cfg: Config, first: Option<Object>, events: seq<Event>) {
    events == [] ||
    var front := events[..|events| - 1];
    Runs(cfg, first, front) && Allowed(After(cfg, first, front), events[|events| - 1])
  }

  // ----- The invariant -----

  /** The content that was current at time t. */
  ghost predicate ContentAt(upstream: seq<Option<Object>>, t: int, content: string) {
    0 <= t < |upstream| && upstream[t].Some? && upstream[t].value.content == content
  }

  ghost predicate HasETag(upstream: seq<Option<Object>>, etag: string, content: string) {
    exists u :: ContentAt(upstream, u, content) && upstream[u].value.etag == etag
  }

  ghost predicate HasDate(upstream: seq<Option<Object>>, date: string, content: string) {
    exists u :: ContentAt(upstream, u, content) && upstream[u].value.lastModified == date
  }

  /** The metadata was validated at storedAt, after the last mutation, and describes the content
      of that time; a body kept with it is that content. */
  ghost predicate Describes(cfg: Config, w: World, m: Meta, body: Option<string>) {
    && w.barrier <= m.storedAt <= w.Now()
    && w.upstream[m.storedAt].Some?
    && m.freshUntil <= m.storedAt + cfg.lifetimes.Longest()
    && var content := w.upstream[m.storedAt].value.content;
       && (m.etag != "" ==> HasETag(w.upstream, m.etag, content))
       && (m.lastModified != "" ==> HasDate(w.upstream, m.lastModified, content))
       && (m.hasBody && body.Some? ==> body.value == content && m.bodySize == |content|)
  }

  ghost predicate Inv(cfg: Config, w: World) {
    w.upstream != [] && w.barrier <= w.Now() &&
    (w.records.meta.Some? ==> Describes(cfg, w, w.records.meta.value, w.records.body))
  }

  /** The promise: a body served as Fresh, Revalidated or Stale was the upstream's current content
      at some time since the last successful mutation, and that time is not too long ago. */
  ghost predicate BoundedStaleness(cfg: Config, w: World, out: Output) {
    out.Body? ==>
      out.size == |out.content| &&
      exists t :: ContentAt(w.upstream, t, out.content) && w.barrier <= t <= w.Now() &&
        match out.kind
        case Fresh => w.Now() < t + cfg.lifetimes.Longest()
        case Revalidated => t == w.Now()
        case Stale => w.Now() < t + cfg.lifetimes.Longest() + cfg.staleIfError
  }

  // ----- Every step keeps the invariant -----

  lemma HistoryGrows(cfg: Config, w: World, next: Option<Object>)
    requires Inv(cfg, w)
    ensures Inv(cfg, w.(upstream := w.upstream + [next]))
  {
    var longer := w.upstream + [next];
    if w.records.meta.Some? {
      var m := w.records.meta.value;
      var content := w.upstream[m.storedAt].value.content;
      if m.etag != "" {
        var u :| ContentAt(w.upstream, u, content) && w.upstream[u].value.etag == m.etag;
        assert ContentAt(longer, u, content) && longer[u].value.etag == m.etag;
      }
      if m.lastModified != "" {
        var u :| ContentAt(w.upstream, u, content) && w.upstream[u].value.lastModified == m.lastModified;
        assert ContentAt(longer, u, content) && longer[u].value.lastModified == m.lastModified;
      }
      assert longer[m.storedAt] == w.upstream[m.storedAt];
    }
  }

  /** An honest 304 to the proxy's own validator means that the content has not changed. */
  lemma RevalidatedIsCurrent(cfg: Config, w: World, m: Meta, req: Request)
    requires w.upstream != [] && Describes(cfg, w, m, w.records.body) && ValidatorsIdentify(w.upstream)
    requires CanRevalidate(Some(m), req) && w.upstream[w.Now()].Some? && NoForeignValidator(Some(m), req)
    requires Answers304(w.upstream[w.Now()].value, SentCandidates(Some(m), req), m.lastModified)
    ensures w.upstream[w.Now()].value.content == w.upstream[m.storedAt].value.content
  {
    var content := w.upstream[m.storedAt].value.content;
    var now := w.Now();
    if m.etag != "" {
      var u :| ContentAt(w.upstream, u, content) && w.upstream[u].value.etag == m.etag;
      assert SentCandidates(Some(m), req) == [m.etag];
      assert w.upstream[now].value.etag == m.etag;
    } else {
      var u :| ContentAt(w.upstream, u, content) && w.upstream[u].value.lastModified == m.lastModified;
      assert w.upstream[now].value.lastModified == m.lastModified;
    }
  }

  lemma RefreshKeepsDescription(cfg: Config, w: World, m: Meta, req: Request)
    requires cfg.Valid() && w.upstream != [] && w.barrier <= w.Now() && Describes(cfg, w, m, w.records.body)
    requires req.reply.NotModified? && w.upstream[w.Now()].Some?
    requires w.upstream[w.Now()].value.content == w.upstream[m.storedAt].value.content
    requires req.reply.etag == "" || req.reply.etag == w.upstream[w.Now()].value.etag
    requires req.reply.lastModified == "" || req.reply.lastModified == w.upstream[w.Now()].value.lastModified
    ensures Describes(cfg, w, Refreshed(cfg, w.Now(), m, req), w.records.body)
  {
    hide S3Ttl.Ttl;
    S3Ttl.TtlBounded(cfg.lifetimes, req.reply.cacheControl, req.hasVersion);
    var content := w.upstream[w.Now()].value.content;
    assert ContentAt(w.upstream, w.Now(), content);
  }

  lemma StoredIsDescribed(cfg: Config, w: World, req: Request, hasBody: bool, body: Option<string>)
    requires cfg.Valid() && w.upstream != [] && w.barrier <= w.Now()
    requires req.reply.Complete? && w.upstream[w.Now()] == Some(req.reply.version)
    requires hasBody ==> body == Some(req.reply.version.content)
    ensures Describes(cfg, w, MetaOf(cfg, w.Now(), req, hasBody), body)
  {
    hide S3Ttl.Ttl;
    S3Ttl.TtlBounded(cfg.lifetimes, req.reply.cacheControl, req.hasVersion);
    assert ContentAt(w.upstream, w.Now(), req.reply.version.content);
  }

  lemma ServedIsBounded(cfg: Config, w: World, kind: Kind, req: Request, m: Meta, body: Option<string>)
    requires w.upstream != [] && Describes(cfg, w, m, body)
    requires match kind
             case Fresh => w.Now() < m.freshUntil
             case Revalidated => m.storedAt == w.Now()
             case Stale => w.Now() < m.freshUntil + cfg.staleIfError
    ensures BoundedStaleness(cfg, w, ServeEntry(kind, req, m, body))
  {
    var out := ServeEntry(kind, req, m, body);
    if out.Body? {
      assert ContentAt(w.upstream, m.storedAt, out.content);
    }
  }

  lemma FetchIsSafe(cfg: Config, w: World, stale: Option<Meta>, req: Request)
    requires cfg.Valid() && Inv(cfg, w) && ValidatorsIdentify(w.upstream)
    requires stale.Some? ==> w.records.meta == stale
    requires Truthful(w, stale, req)
    ensures var (r, out) := FetchAndMaybeStore(cfg, w.Now(), w.records, stale, req);
            Inv(cfg, w.(records := r)) && BoundedStaleness(cfg, w, out)
  {
    hide S3Ttl.Ttl, Describes, ServeEntry, ShouldStore, Refreshed, MetaOf, ValidatorsIdentify, Answers304,
        BoundedStaleness;
    ForwardedIsBounded(cfg, w);
    match req.reply
    case NoAnswer =>
      if CanServeStale(cfg, w.Now(), stale) && Usable(req, stale.value) {
        ServedIsBounded(cfg, w, Stale, req, stale.value, w.records.body);
      }
    case NotModified(_, _, _) =>
      if CanRevalidate(stale, req) {
        RevalidatedIsCurrent(cfg, w, stale.value, req);
        Unfold(cfg, w, stale.value, w.records.body);
        RefreshKeepsDescription(cfg, w, stale.value, req);
        var m := Refreshed(cfg, w.Now(), stale.value, req);
        RefreshedNow(cfg, w.Now(), stale.value, req);
        ServedIsBounded(cfg, w, Revalidated, req, m, w.records.body);
        SameWorldDescribes(cfg, w, w.(records := w.records.(meta := Some(m))), m, w.records.body);
      }
    case Gone =>
    case Other =>
    case Complete(_, _, _) => StoreIsSafe(cfg, w, stale, req);
  }

  lemma ForwardedIsBounded(cfg: Config, w: World)
    ensures forall out: Output :: !out.Body? ==> BoundedStaleness(cfg, w, out)
  {
  }

  lemma Unfold(cfg: Config, w: World, m: Meta, body: Option<string>)
    requires w.upstream != [] && Describes(cfg, w, m, body)
    ensures w.barrier <= m.storedAt <= w.Now() && w.upstream[m.storedAt].Some?
  {
  }

  lemma RefreshedNow(cfg: Config, now: int, m: Meta, req: Request)
    requires req.reply.NotModified?
    ensures Refreshed(cfg, now, m, req).storedAt == now
  {
  }

  /** A description does not depend on the records, and it survives the loss of the body. */
  lemma SameWorldDescribes(cfg: Config, w: World, v: World, m: Meta, body: Option<string>)
    requires w.upstream != [] && v.upstream == w.upstream && v.barrier == w.barrier && Describes(cfg, w, m, body)
    ensures Describes(cfg, v, m, body) && Describes(cfg, v, m, None)
  {
  }

  lemma StoreIsSafe(cfg: Config, w: World, stale: Option<Meta>, req: Request)
    requires cfg.Valid() && Inv(cfg, w) && NotCut(w.records, req)
    requires req.reply.Complete? && w.upstream[w.Now()] == Some(req.reply.version)
    ensures var (r, out) := FetchAndMaybeStore(cfg, w.Now(), w.records, stale, req);
            Inv(cfg, w.(records := r)) && out == Forwarded
  {
    hide S3Ttl.Ttl, Describes, ShouldStore, MetaOf;
    var (r, out) := FetchAndMaybeStore(cfg, w.Now(), w.records, stale, req);
    var v := w.(records := r);
    StoredIsDescribed(cfg, v, req, false, None);
    StoredIsDescribed(cfg, v, req, true, Some(req.reply.version.content));
    if w.records.meta.Some? {
      SameWorldDescribes(cfg, w, v, w.records.meta.value, w.records.body);
      if !w.records.meta.value.hasBody { BodilessDescribes(cfg, v, w.records.meta.value, w.records.body, r.body); }
    }
  }

  /** Metadata without a body says nothing about one. */
  lemma BodilessDescribes(cfg: Config, w: World, m: Meta, body: Option<string>, other: Option<string>)
    requires w.upstream != [] && !m.hasBody && Describes(cfg, w, m, body)
    ensures Describes(cfg, w, m, other)
  {
  }

  lemma AskIsSafe(cfg: Config, w: World, req: Request)
    requires cfg.Valid() && Inv(cfg, w) && ValidatorsIdentify(w.upstream) && Allowed(w, Ask(req))
    ensures var (r, out) := ServeCacheable(cfg, w.Now(), w.records, req);
            Inv(cfg, w.(records := r)) && BoundedStaleness(cfg, w, out)
  {
    hide S3Ttl.Ttl, Describes, ServeEntry, FetchAndMaybeStore, ValidatorsIdentify, Answers304, BoundedStaleness,
        CanRevalidate;
    ForwardedIsBounded(cfg, w);
    var (r1, m) := Load(w.records);
    var v := w.(records := r1);
    NothingToRevalidate(req);
    if m.Some? && Usable(req, m.value) && w.Now() < m.value.freshUntil {
      SameWorldDescribes(cfg, w, v, m.value, r1.body);
      ServedIsBounded(cfg, w, Fresh, req, m.value, r1.body);
      if ServeEntry(Fresh, req, m.value, r1.body) == Nothing {
        var gone := w.(records := Records(None, None));
        FetchIsSafe(cfg, gone, None, req);
        SameBound(cfg, gone, w, FetchAndMaybeStore(cfg, w.Now(), Records(None, None), None, req).1);
      }
    } else {
      if r1.meta.Some? { SameWorldDescribes(cfg, w, v, r1.meta.value, r1.body); }
      FetchIsSafe(cfg, v, m, req);
      SameBound(cfg, v, w, FetchAndMaybeStore(cfg, w.Now(), r1, m, req).1);
    }
  }

  lemma NothingToRevalidate(req: Request)
    ensures !CanRevalidate(None, req)
  {
  }

  lemma SameBound(cfg: Config, v: World, w: World, out: Output)
    requires v.upstream == w.upstream && v.barrier == w.barrier && BoundedStaleness(cfg, v, out)
    ensures BoundedStaleness(cfg, w, out)
  {
  }

  lemma StepIsSafe(cfg: Config, w: World, e: Event)
    requires cfg.Valid() && Inv(cfg, w) && ValidatorsIdentify(w.upstream) && Allowed(w, e)
    ensures Inv(cfg, Step(cfg, w, e).0)
    ensures e.Ask? ==> BoundedStaleness(cfg, w, Step(cfg, w, e).1)
  {
    hide S3Ttl.Ttl, Describes, ServeCacheable, ValidatorsIdentify, Truthful, BoundedStaleness;
    match e
    case Tick(next) => HistoryGrows(cfg, w, next);
    case DropMeta =>
    case DropBody =>
      if w.records.meta.Some? { SameWorldDescribes(cfg, w, Step(cfg, w, e).0, w.records.meta.value, w.records.body); }
    case Ask(req) => AskIsSafe(cfg, w, req);
    case Mutate(next, success) => HistoryGrows(cfg, w, next);
  }

  lemma UpstreamOnlyGrows(cfg: Config, w: World, e: Event)
    ensures w.upstream <= Step(cfg, w, e).0.upstream
  {
  }

  lemma IdentifyEarlier(a: seq<Option<Object>>, b: seq<Option<Object>>)
    requires a <= b && ValidatorsIdentify(b)
    ensures ValidatorsIdentify(a)
  {
    assert forall i :: 0 <= i < |a| ==> a[i] == b[i];
  }

  // ----- Main results: every run -----

  lemma {:induction false} RunKeepsInv(cfg: Config, first: Option<Object>, events: seq<Event>)
    requires cfg.Valid() && Runs(cfg, first, events) && ValidatorsIdentify(After(cfg, first, events).upstream)
    ensures Inv(cfg, After(cfg, first, events))
    decreases |events|
  {
    hide Inv, Step, Allowed, ValidatorsIdentify;
    if events == [] {
      InitialInv(cfg, first);
    } else {
      var front, last := events[..|events| - 1], events[|events| - 1];
      var w := After(cfg, first, front);
      UpstreamOnlyGrows(cfg, w, last);
      IdentifyEarlier(w.upstream, After(cfg, first, events).upstream);
      RunKeepsInv(cfg, first, front);
      StepIsSafe(cfg, w, last);
    }
  }

  lemma InitialInv(cfg: Config, first: Option<Object>)
    ensures Inv(cfg, Initial(first))
  {
  }

  /** After any run of requests, mutations, evictions and upstream changes, the next request is
      served a body only within the staleness bound and never one older than the last successful
      mutation. */
  lemma EveryServedBodyIsBounded(cfg: Config, first: Option<Object>, events: seq<Event>, req: Request)
    requires cfg.Valid() && Runs(cfg, first, events) && ValidatorsIdentify(After(cfg, first, events).upstream)
    requires Allowed(After(cfg, first, events), Ask(req))
    ensures var w := After(cfg, first, events);
            BoundedStaleness(cfg, w, ServeCacheable(cfg, w.Now(), w.records, req).1)
  {
    RunKeepsInv(cfg, first, events);
    AskIsSafe(cfg, After(cfg, first, events), req);
  }

  /** After any such run a loaded body is what the upstream held when its metadata was last
      validated. */
  lemma LoadedPairIsTheUpstreams(cfg: Config, first: Option<Object>, events: seq<Event>)
    requires cfg.Valid() && Runs(cfg, first, events) && ValidatorsIdentify(After(cfg, first, events).upstream)
    ensures var w := After(cfg, first, events);
            var (r, m) := Load(w.records);
            m.Some? && m.value.hasBody ==>
              r.body.Some? && |r.body.value| == m.value.bodySize &&
                  ContentAt(w.upstream, m.value.storedAt, r.body.value)
  {
    RunKeepsInv(cfg, first, events);
  }

  // ----- Coherence of the two records, whatever anyone does -----

  /** The request gets as far as streaming a response into the cache. */
  predicate ReachesStore(cfg: Config, now: int, r: Records, req: Request) {
    !ServedFromCache(now, r, req) && req.reply.Complete? && ShouldStore(cfg, req) && req.verb == Get
  }

  /** The response ends up in both records. */
  predicate StoresPair(cfg: Config, now: int, r: Records, req: Request) {
    ReachesStore(cfg, now, r, req) && req.faults.stream == InPlace && !req.faults.metaWriteFails
  }

  /** The content that metadata with a body describes: that of the last response stored. */
  function NowDescribed(cfg: Config, now: int, r: Records, req: Request, described: Option<string>): Option<string> {
    if StoresPair(cfg, now, r, req) then Some(req.reply.version.content) else described
  }

  function LastStored(cfg: Config, first: Option<Object>, events: seq<Event>): Option<string> {
    if events == [] then None
    else
      var front, last := events[..|events| - 1], events[|events| - 1];
      var w, before := After(cfg, first, front), LastStored(cfg, first, front);
      if last.Ask? then NowDescribed(cfg, w.Now(), w.records, last.req, before) else before
  }

  /** The size that metadata promises is that of the content it describes. */
  predicate Sized(r: Records, described: Option<string>) {
    r.meta.Some? && r.meta.value.hasBody ==> described.Some? && r.meta.value.bodySize == |described.value|
  }

  /** Metadata and a body that it does not describe. */
  predicate Mixed(r: Records, described: Option<string>) {
    r.meta.Some? && r.meta.value.hasBody && r.body.Some? && r.body != described
  }

  predicate Matches(r: Records, described: Option<string>) {
    Sized(r, described) && !Mixed(r, described)
  }

  /** The process stops with a new body in place while the old metadata promises another one. */
  predicate Tears(cfg: Config, now: int, r: Records, req: Request, described: Option<string>) {
    && ReachesStore(cfg, now, r, req) && req.faults.stream == Stopped
    && StaleMeta(now, r, req).Some? && StaleMeta(now, r, req).value.hasBody
    && described != Some(req.reply.version.content)
  }

  /** The event neither removes nor replaces a record, though it may refresh the metadata. */
  predicate LeavesPair(cfg: Config, now: int, r: Records, e: Event) {
    match e
    case Tick(_) => true
    case DropMeta => false
    case DropBody => false
    case Mutate(_, success) => !success
    case Ask(req) =>
      ServedFromCache(now, r, req) ||
      (!Hits(now, r, req) && req.reply != Gone &&
       !(req.reply.Complete? && ShouldStore(cfg, req) && (req.verb == Head || req.faults.stream != GivenUp)))
  }

  lemma AskOnPair(cfg: Config, now: int, r: Records, req: Request, described: Option<string>)
    requires Sized(r, described)
    ensures var after, d := ServeCacheable(cfg, now, r, req).0, NowDescribed(cfg, now, r, req, described);
            Sized(after, d) &&
            (Mixed(after, d) <==>
               Tears(cfg, now, r, req, described) || (Mixed(r, described) && LeavesPair(cfg, now, r, Ask(req))))
  {
    hide ShouldStore, S3Ttl.Ttl, ServeEntry, CanServeStale;
  }

  lemma AskKeepsMatch(cfg: Config, now: int, r: Records, req: Request, described: Option<string>)
    ensures Matches(r, described) && !Tears(cfg, now, r, req, described) ==>
              Matches(ServeCacheable(cfg, now, r, req).0, NowDescribed(cfg, now, r, req, described))
  {
    hide ServeCacheable, NowDescribed, Tears, LeavesPair;
    if Sized(r, described) { AskOnPair(cfg, now, r, req, described); }
  }

  predicate TearsAfter(cfg: Config, first: Option<Object>, events: seq<Event>, e: Event) {
    var w := After(cfg, first, events);
    e.Ask? && Tears(cfg, w.Now(), w.records, e.req, LastStored(cfg, first, events))
  }

  predicate LeavesPairAfter(cfg: Config, first: Option<Object>, events: seq<Event>, e: Event) {
    var w := After(cfg, first, events);
    LeavesPair(cfg, w.Now(), w.records, e)
  }

  /** The event is a stop that mixed the pair, and no later one has removed or replaced a record. */
  ghost predicate TornBy(cfg: Config, first: Option<Object>, events: seq<Event>, i: nat) {
    && i < |events| && TearsAfter(cfg, first, events[..i], events[i])
    && forall j :: i < j < |events| ==> LeavesPairAfter(cfg, first, events[..j], events[j])
  }

  lemma TornEarlier(cfg: Config, first: Option<Object>, events: seq<Event>, i: nat)
    requires events != [] && i < |events| - 1
    ensures var front, last := events[..|events| - 1], events[|events| - 1];
            TornBy(cfg, first, events, i) <==> TornBy(cfg, first, front, i) && LeavesPairAfter(cfg, first, front, last)
  {
    hide TearsAfter, LeavesPairAfter;
    var n := |events| - 1;
    var front := events[..n];
    assert forall j :: 0 <= j < n ==> front[..j] == events[..j] && front[j] == events[j];
  }

  lemma {:induction false} PairAfterRun(cfg: Config, first: Option<Object>, events: seq<Event>)
    ensures var r, d := After(cfg, first, events).records, LastStored(cfg, first, events);
            Sized(r, d) && (Mixed(r, d) <==> exists i: nat :: TornBy(cfg, first, events, i))
  {
    if events != [] {
      hide Tears, LeavesPair, NowDescribed, ServeCacheable, TornBy;
      var front, last := events[..|events| - 1], events[|events| - 1];
      PairAfterRun(cfg, first, front);
      EventOnPair(cfg, After(cfg, first, front), last, LastStored(cfg, first, front));
      TornStep(cfg, first, events);
    }
  }

  /** A torn pair was torn by the last event, or before it and left alone. */
  lemma TornStep(cfg: Config, first: Option<Object>, events: seq<Event>)
    requires events != []
    ensures var front, last := events[..|events| - 1], events[|events| - 1];
            (exists i: nat :: TornBy(cfg, first, events, i)) <==>
            TearsAfter(cfg, first, front, last) ||
            (LeavesPairAfter(cfg, first, front, last) && exists i: nat :: TornBy(cfg, first, front, i))
  {
    hide TearsAfter, LeavesPairAfter;
    var n := |events| - 1;
    var front, last := events[..n], events[n];
    forall i: nat | i < n
      ensures TornBy(cfg, first, events, i) <==>
                TornBy(cfg, first, front, i) && LeavesPairAfter(cfg, first, front, last)
    {
      TornEarlier(cfg, first, events, i);
    }
    assert TornBy(cfg, first, events, n) <==> TearsAfter(cfg, first, front, last);
    if i: nat :| TornBy(cfg, first, front, i) { assert i < n; }
  }

  lemma EventOnPair(cfg: Config, w: World, e: Event, described: Option<string>)
    requires Sized(w.records, described)
    ensures var d := if e.Ask? then NowDescribed(cfg, w.Now(), w.records, e.req, described) else described;
            var after := Step(cfg, w, e).0.records;
            Sized(after, d) &&
            (Mixed(after, d) <==>
               (e.Ask? && Tears(cfg, w.Now(), w.records, e.req, described)) ||
               (Mixed(w.records, described) && LeavesPair(cfg, w.Now(), w.records, e)))
  {
    hide ServeCacheable, Tears, NowDescribed;
    if e.Ask? { AskOnPair(cfg, w.Now(), w.records, e.req, described); }
  }

  /** After any events at all, whatever the upstream and the clients answer and send and whatever
      fails: loading the metadata misses exactly if it is absent or promises a body that is
      absent, and then none is left. Otherwise the body it promises is there, and the recorded
      size is that of the last response stored. The body is that response's, byte for byte,
      exactly unless the process stopped between putting another body in place and writing its
      metadata, and no record has been removed or replaced since. */
  lemma LoadedPairIsCoherentIff(cfg: Config, first: Option<Object>, events: seq<Event>)
    ensures var w, d := After(cfg, first, events), LastStored(cfg, first, events);
            var (r, m) := Load(w.records);
            && (m.None? <==> w.records.meta.None? || (w.records.meta.value.hasBody && w.records.body.None?))
            && (m.None? ==> r.meta.None?)
            && (m.Some? && m.value.hasBody ==>
                  && r.body.Some? && d.Some? && m.value.bodySize == |d.value|
                  && (r.body == d <==> !exists i: nat :: TornBy(cfg, first, events, i)))
  {
    PairAfterRun(cfg, first, events);
  }

  /** So without a stop in the middle of storing a body, a loaded pair is always coherent. */
  lemma LoadedPairIsCoherent(cfg: Config, first: Option<Object>, events: seq<Event>)
    requires forall i :: 0 <= i < |events| && events[i].Ask? ==> events[i].req.faults.stream != Stopped
    ensures var (r, m) := Load(After(cfg, first, events).records);
            m.Some? && m.value.hasBody ==>
              r.body.Some? && r.body == LastStored(cfg, first, events) && m.value.bodySize == |r.body.value|
  {
    LoadedPairIsCoherentIff(cfg, first, events);
  }

  function PlainGet(version: Object, stream: StreamEnd): Request {
    Request(Get, false, [], false, Complete(version, "", false), Faults(false, false, stream))
  }

  lemma PlainGetStores(cfg: Config, version: Object, stream: StreamEnd)
    ensures ShouldStore(cfg, PlainGet(version, stream))
    ensures S3Ttl.Ttl(cfg.lifetimes, "", false) == cfg.lifetimes.unversioned
  {
    assert S3Ttl.Trim("") == "";
    assert SplitOn("", ',') == [""];
    assert Lower("") == "";
  }

  /** Such a run: an object is stored and goes stale, and the process stops while its next version
      is being stored. What is loaded then has the old size and the new content. */
  lemma StopBetweenBodyAndMetadata(cfg: Config, older: Object, newer: Object) returns (events: seq<Event>)
    requires cfg.lifetimes.unversioned == 1 && older.content != newer.content
    ensures var (r, m) := Load(After(cfg, Some(older), events).records);
            && m.Some? && m.value.hasBody && m.value.bodySize == |older.content| && r.body == Some(newer.content)
            && LastStored(cfg, Some(older), events) == Some(older.content)
  {
    hide ShouldStore, S3Ttl.Ttl;
    PlainGetStores(cfg, older, InPlace);
    PlainGetStores(cfg, newer, Stopped);
    var e0, e1, e2 := Ask(PlainGet(older, InPlace)), Tick(Some(newer)), Ask(PlainGet(newer, Stopped));
    events := [e0, e1, e2];
    assert events[..2] == [e0, e1] && events[2] == e2 && [e0, e1][..1] == [e0] && [e0][..0] == [];
    assert After(cfg, Some(older), []) == Initial(Some(older)) && LastStored(cfg, Some(older), []) == None;
    var w1 := After(cfg, Some(older), [e0]);
    assert w1.records == Records(Some(Meta(older.etag, older.lastModified, 0, 1, true, |older.content|)),
        Some(older.content));
    assert LastStored(cfg, Some(older), [e0]) == Some(older.content);
    var w2 := After(cfg, Some(older), [e0, e1]);
    assert w2 == World([Some(older), Some(newer)], 0, w1.records);
    assert LastStored(cfg, Some(older), [e0, e1]) == Some(older.content);
  }

  // ----- What must be served, spelled out -----

  /** The client asks for the body and holds no copy with this ETag. */
  predicate WantsBody(req: Request, etag: string) {
    req.verb == Get && forall i :: 0 <= i < |req.candidates| ==>
      etag == "" || (req.candidates[i] != "*" && req.candidates[i] != etag)
  }

  /** A fresh entry with its body is a hit, whatever the upstream would answer, and stays as it is. */
  lemma FreshIsServed(cfg: Config, now: int, m: Meta, body: string, req: Request)
    requires m.hasBody && now < m.freshUntil && WantsBody(req, m.etag) && !req.faults.openFails
    ensures var r := Records(Some(m), Some(body));
            ServeCacheable(cfg, now, r, req) == (r, Body(Fresh, body, m.bodySize))
  {
  }

  /** When the file cannot be opened the entry goes and the upstream's answer counts. */
  lemma UnreadableIsFetched(cfg: Config, now: int, m: Meta, body: string, req: Request)
    requires m.hasBody && now < m.freshUntil && WantsBody(req, m.etag) && req.faults.openFails
    ensures var (r, out) := ServeCacheable(cfg, now, Records(Some(m), Some(body)), req);
            && (req.reply == NoAnswer ==> out == BadGateway && r == Records(None, None))
            && (!req.reply.Complete? ==> r == Records(None, None))
            && !out.Body?
  {
  }

  /** A stale entry is served on an unreachable upstream exactly as long as the allowance lasts. */
  lemma StaleIsServedIff(cfg: Config, now: int, m: Meta, body: string, req: Request)
    requires m.hasBody && m.freshUntil <= now && WantsBody(req, m.etag) && !req.faults.openFails
    requires req.reply == NoAnswer
    ensures var r := Records(Some(m), Some(body));
            ServeCacheable(cfg, now, r, req) ==
            (r, if now < m.freshUntil + cfg.staleIfError then Body(Stale, body, m.bodySize) else BadGateway)
  {
  }

  /** An entry with a validator is served when the upstream confirms it; it is fresh again for the
      lifetime the confirmation gives, and takes over the validators that come with it. */
  lemma ConfirmedIsServed(cfg: Config, now: int, m: Meta, body: string, req: Request)
    requires m.hasBody && m.freshUntil <= now && !req.faults.openFails && req.reply.NotModified?
    requires m.etag != "" || m.lastModified != ""
    requires WantsBody(req, if req.reply.etag != "" then req.reply.etag else m.etag)
    ensures var (r, out) := ServeCacheable(cfg, now, Records(Some(m), Some(body)), req);
            && out == Body(Revalidated, body, m.bodySize) && r.body == Some(body)
            && (req.faults.metaWriteFails ==> r.meta == Some(m))
            && (!req.faults.metaWriteFails ==>
                  && r.meta.Some? && r.meta.value.hasBody && r.meta.value.bodySize == m.bodySize
                  && r.meta.value.storedAt == now
                  && r.meta.value.freshUntil == now + S3Ttl.Ttl(cfg.lifetimes, req.reply.cacheControl, req.hasVersion)
                  && r.meta.value.etag == (if req.reply.etag == "" then m.etag else req.reply.etag)
                  && r.meta.value.lastModified ==
                     if req.reply.lastModified == "" then m.lastModified else req.reply.lastModified)
  {
  }

  /** Without a validator, a 304 is the answer to the client's own condition and passes through; 404
      and 410 remove the entry, and every other reply that is not 200 leaves it. */
  lemma OtherRepliesPass(cfg: Config, now: int, m: Meta, body: string, req: Request)
    requires m.hasBody && m.freshUntil <= now && req.verb == Get
    ensures var r := Records(Some(m), Some(body));
            && (req.reply.NotModified? && m.etag == "" && m.lastModified == "" ==>
                  ServeCacheable(cfg, now, r, req) == (r, Forwarded))
            && (req.reply == Gone ==> ServeCacheable(cfg, now, r, req) == (Records(None, None), Forwarded))
            && (req.reply == Other ==> ServeCacheable(cfg, now, r, req) == (r, Forwarded))
  {
  }

  /** A client that holds a copy with the entry's ETag, or any copy, is told so. */
  lemma HoldersAreTold(cfg: Config, now: int, m: Meta, body: string, req: Request, i: nat)
    requires m.hasBody && now < m.freshUntil && m.etag != ""
    requires i < |req.candidates| && (req.candidates[i] == m.etag || req.candidates[i] == "*")
    ensures var r := Records(Some(m), Some(body));
            ServeCacheable(cfg, now, r, req) == (r, Unchanged)
  {
  }

  /** A HEAD is answered from fresh metadata, with or without a body; a GET is not answered from an
      entry that has only metadata. */
  lemma HeadersAlone(cfg: Config, now: int, m: Meta, req: Request)
    requires !m.hasBody && now < m.freshUntil && req.candidates == []
    ensures var r := Records(Some(m), None);
            && (req.verb == Head ==> ServeCacheable(cfg, now, r, req) == (r, Headers(Fresh)))
            && (req.verb == Get && req.reply == NoAnswer ==> ServeCacheable(cfg, now, r, req) == (r, BadGateway))
            && (req.verb == Get && req.reply.NotModified? ==> ServeCacheable(cfg, now, r, req) == (r, Forwarded))
  {
  }

  /** The header forbids storing: "no-store", or "private" where that is respected, in any case. */
  ghost predicate Forbids(cfg: Config, cacheControl: string) {
    || Mentions(cacheControl, "no-store")
    || (cfg.respectPrivate && Mentions(cacheControl, "private"))
  }

  /** The word occurs in the text, in any case. */
  ghost predicate Mentions(s: string, word: string) {
    exists i, j :: 0 <= i <= j <= |s| && SameUpToCase(s[i..j], word)
  }

  lemma ContainsIff(s: string, word: string)
    requires Lower(word) == word
    ensures Contains(Lower(s), word) <==> Mentions(s, word)
  {
    hide Lower, SameUpToCase;
    var low := Lower(s);
    if i :| 0 <= i <= |low| && word <= low[i..] {
      LowerPrefix(s, i);
      BeginsIff(word, s[i..]);
      var j := i + |word|;
      assert s[i..][..|word|] == s[i..j];
      assert SameUpToCase(s[i..j], word);
    }
    if i, j :| 0 <= i <= j <= |s| && SameUpToCase(s[i..j], word) {
      LowerPrefix(s, i);
      assert |s[i..j]| == |word| by { LowerSameIff(s[i..j], word); }
      assert s[i..][..|word|] == s[i..j];
      BeginsIff(word, s[i..]);
      assert word <= low[i..];
    }
  }

  lemma StorableIff(cfg: Config, req: Request)
    ensures ShouldStore(cfg, req) <==>
            req.reply.Complete? && !req.hasRange && !req.reply.setCookie && !Forbids(cfg, req.reply.cacheControl)
  {
    hide Contains, Mentions;
    assert Lower("no-store") == "no-store" && Lower("private") == "private" by { LowerWords(); }
    if req.reply.Complete? {
      ContainsIff(req.reply.cacheControl, "no-store");
      ContainsIff(req.reply.cacheControl, "private");
    }
  }

  lemma LowerWords()
    ensures Lower("no-store") == "no-store" && Lower("private") == "private"
  {
    hide Lower;
    AlreadyLower("no-store");
    AlreadyLower("private");
  }

  /** A complete answer to a request that finds nothing fresh: where a range was asked for, a cookie is
      set or the header forbids it, both records stay as they were; otherwise a body that is put in
      place with its metadata is what the upstream sent, fresh for the lifetime its header gives,
      and a HEAD leaves metadata without a body. */
  lemma WhatIsStored(cfg: Config, now: int, r: Records, req: Request)
    requires req.reply.Complete?
    requires r.meta.Some? ==> r.meta.value.freshUntil <= now && (r.meta.value.hasBody ==> r.body.Some?)
    ensures var o := req.reply.version;
            var until := now + S3Ttl.Ttl(cfg.lifetimes, req.reply.cacheControl, req.hasVersion);
            var (after, out) := ServeCacheable(cfg, now, r, req);
            && out == Forwarded
            && (req.hasRange || req.reply.setCookie || Forbids(cfg, req.reply.cacheControl) ==> after == r)
            && (!req.hasRange && !req.reply.setCookie && !Forbids(cfg, req.reply.cacheControl) &&
                 !req.faults.metaWriteFails ==>
                  && (req.verb == Get && req.faults.stream == InPlace ==>
                        after == Records(Some(Meta(o.etag, o.lastModified, now, until, true, |o.content|)),
                            Some(o.content)))
                  && (req.verb == Get && req.faults.stream == GivenUp ==> after == r)
                  && (req.verb == Head ==>
                        after == Records(Some(Meta(o.etag, o.lastModified, now, until, false, 0)), None)))
  {
    hide Forbids, ShouldStore;
    StorableIff(cfg, req);
  }

  // ----- Over a run: what is stored is hit until its lifetime is over -----

  /** Nothing is evicted or invalidated, and the file can always be opened. */
  predicate Undisturbed(events: seq<Event>) {
    forall i :: 0 <= i < |events| ==>
      match events[i]
      case Tick(_) => true
      case Mutate(_, success) => !success
      case Ask(req) => !req.faults.openFails
      case _ => false
  }

  function Continue(cfg: Config, w: World, events: seq<Event>): (v: World)
    ensures |v.upstream| >= |w.upstream|
  {
    if events == [] then w
    else Step(cfg, Continue(cfg, w, events[..|events| - 1]), events[|events| - 1]).0
  }

  lemma {:induction false} FreshStays(cfg: Config, w: World, events: seq<Event>, m: Meta, body: string)
    requires w.records == Records(Some(m), Some(body)) && m.hasBody && Undisturbed(events)
    requires Continue(cfg, w, events).Now() < m.freshUntil
    ensures Continue(cfg, w, events).records == w.records
  {
    hide S3Ttl.Ttl, ShouldStore;
    if events != [] {
      var front, last := events[..|events| - 1], events[|events| - 1];
      assert Undisturbed(front) by { forall i | 0 <= i < |front| ensures front[i] == events[i] { } }
      var v := Continue(cfg, w, front);
      assert v.Now() <= Continue(cfg, w, events).Now();
      FreshStays(cfg, w, front, m, body);
      match last
      case Ask(req) => FreshIsLeft(cfg, v.Now(), m, body, req);
      case _ =>
    }
  }

  lemma FreshIsLeft(cfg: Config, now: int, m: Meta, body: string, req: Request)
    requires m.hasBody && now < m.freshUntil && !req.faults.openFails
    ensures ServeCacheable(cfg, now, Records(Some(m), Some(body)), req).0 == Records(Some(m), Some(body))
  {
  }

  /** After a GET whose answer was stored at time t, every GET before t plus its lifetime is a hit with
      exactly that content, whatever other requests, failed mutations and upstream changes come in
      between, as long as nothing is removed. */
  lemma StoredIsHitUntilItsLifetimeEnds(cfg: Config, w: World, req: Request, events: seq<Event>, next: Request)
    requires w.upstream != [] && req.verb == Get && req.reply.Complete? && !req.hasRange && !req.reply.setCookie
    requires !Forbids(cfg, req.reply.cacheControl) && req.faults.stream == InPlace && !req.faults.metaWriteFails
    requires w.records.meta.Some? ==>
               w.records.meta.value.freshUntil <= w.Now() && (w.records.meta.value.hasBody ==> w.records.body.Some?)
    requires Undisturbed(events) && !next.faults.openFails && WantsBody(next, req.reply.version.etag)
    ensures var lifetime := S3Ttl.Ttl(cfg.lifetimes, req.reply.cacheControl, req.hasVersion);
            var v := Continue(cfg, Step(cfg, w, Ask(req)).0, events);
            v.Now() < w.Now() + lifetime ==>
              Step(cfg, v, Ask(next)).1 == Body(Fresh, req.reply.version.content, |req.reply.version.content|)
  {
    hide S3Ttl.Ttl, Forbids, ServeCacheable, Undisturbed;
    var o := req.reply.version;
    var u := Step(cfg, w, Ask(req)).0;
    WhatIsStored(cfg, w.Now(), w.records, req);
    var m := u.records.meta.value;
    var v := Continue(cfg, u, events);
    if v.Now() < m.freshUntil {
      FreshStays(cfg, u, events, m, o.content);
      FreshIsServed(cfg, v.Now(), m, o.content, next);
    }
  }

  // ----- Where the promises need their conditions -----

  /** The object a record describes, and the object the upstream has now. */
  ghost predicate Plausible(m: Meta, stored: Object, current: Object) {
    && (m.etag != "" ==> stored.etag == m.etag) && (m.lastModified != "" ==> stored.lastModified == m.lastModified)
    && stored.etag != "*" && current.etag != "*"
    && (stored.etag != "" && stored.etag == current.etag ==> stored.content == current.content)
    && (stored.lastModified != "" && stored.lastModified == current.lastModified ==> stored.content == current.content)
  }

  ghost predicate Trustworthy(m: Meta, req: Request) {
    forall stored, current: Object ::
      Plausible(m, stored, current) && Answers304(current, SentCandidates(Some(m), req), m.lastModified) ==>
          stored.content == current.content
  }

  /** A 304 can be taken as a revalidation, whatever the upstream holds, exactly when the entry has
      an ETag or the client sent no usable If-None-Match of its own: with a Last-Modified date
      only, the client's list goes upstream beside the proxy's date and is what gets answered. */
  lemma RevalidationIsTrustworthyIff(m: Meta, req: Request)
    requires CanRevalidate(Some(m), req) && m.etag != "*"
    ensures Trustworthy(m, req) <==> m.etag != "" || forall i :: 0 <= i < |req.candidates| ==> req.candidates[i] == ""
  {
    if m.etag == "" {
      if i :| 0 <= i < |req.candidates| && req.candidates[i] != "" {
        var tag := if req.candidates[i] == "*" then "x" else req.candidates[i];
        var stored := Object("old", "", m.lastModified);
        var current := Object("new", tag, m.lastModified + "x");
        assert m.lastModified + "x" != m.lastModified;
        assert Plausible(m, stored, current);
        assert Answers304(current, SentCandidates(Some(m), req), m.lastModified);
      }
    } else {
      assert SentCandidates(Some(m), req) == [m.etag];
    }
  }

  lemma FetchWasSafe(cfg: Config, w: World, stale: Option<Meta>, req: Request)
    requires w.upstream != []
    ensures cfg.Valid() && Inv(cfg, w) && ValidatorsIdentify(w.upstream) && Truthful(w, stale, req) &&
              (stale.Some? ==> w.records.meta == stale) ==>
              var (r, out) := FetchAndMaybeStore(cfg, w.Now(), w.records, stale, req);
              Inv(cfg, w.(records := r)) && BoundedStaleness(cfg, w, out)
  {
    hide Inv, BoundedStaleness, ValidatorsIdentify, Truthful, FetchAndMaybeStore;
    if cfg.Valid() && Inv(cfg, w) && ValidatorsIdentify(w.upstream) && Truthful(w, stale, req) &&
        (stale.Some? ==> w.records.meta == stale) {
      FetchIsSafe(cfg, w, stale, req);
    }
  }

  lemma AskWasSafe(cfg: Config, w: World, req: Request)
    requires w.upstream != []
    ensures cfg.Valid() && Inv(cfg, w) && ValidatorsIdentify(w.upstream) && Allowed(w, Ask(req)) ==>
              var (r, out) := ServeCacheable(cfg, w.Now(), w.records, req);
              Inv(cfg, w.(records := r)) && BoundedStaleness(cfg, w, out)
  {
    hide Inv, BoundedStaleness, ValidatorsIdentify, Allowed, ServeCacheable;
    if cfg.Valid() && Inv(cfg, w) && ValidatorsIdentify(w.upstream) && Allowed(w, Ask(req)) {
      AskIsSafe(cfg, w, req);
    }
  }

  // ----- The records, changed in place -----

  class Entry {
    var meta: Option<Meta>
    var body: Option<string>

    ghost function State(): Records
      reads this
    {
      Records(meta, body)
    }

    constructor ()
      ensures State() == Records(None, None)
    {
      meta, body := None, None;
    }

    /** Returns the metadata exactly if the body it promises is there; metadata that promises a
        missing body is removed. */
    method LoadMetadata() returns (m: Option<Meta>)
      modifies this`meta
      ensures m.Some? <==> old(meta).Some? && (old(meta).value.hasBody ==> body.Some?)
      ensures m.Some? ==> m == old(meta)
      ensures meta == m
    {
      if meta.None? {
        return None;
      }
      if meta.value.hasBody && body.None? {
        meta := None;
        return None;
      }
      return meta;
    }

    method StoreMetadata(m: Meta, fails: bool) returns (err: bool)
      modifies this`meta
      ensures err == fails && meta == if fails then old(meta) else Some(m)
    {
      if !fails {
        meta := Some(m);
      }
      return fails;
    }

    method RemoveEntry()
      modifies this
      ensures State() == Records(None, None)
    {
      meta := None;
      body := None;
    }

    /** What the metadata promises about its body stays true, whatever goes wrong, unless the process
        stops between the two records; if all goes well it is about the new body. */
    method StreamIn(cfg: Config, now: int, req: Request, ghost described: Option<string>)
      requires req.reply.Complete?
      modifies this
      ensures State() == StreamAndStore(cfg, now, old(State()), req)
      ensures Matches(old(State()), described) && req.faults.stream != Stopped ==>
                Matches(State(), described) || Matches(State(), Some(req.reply.version.content))
    {
      if req.faults.stream == GivenUp {
        return;
      }
      body := None;
      if req.faults.stream == NotRenamed {
        return;
      }
      body := Some(req.reply.version.content);
      if req.faults.stream == Stopped {
        return;
      }
      var err := StoreMetadata(MetaOf(cfg, now, req, true), req.faults.metaWriteFails);
      if err {
        body := None;
      }
    }

    /** A truthful reply leaves a described entry described, and what is served meets the bound. */
    method Fetch(cfg: Config, now: int, stale: Option<Meta>, req: Request, ghost w: World) returns (out: Output)
      requires w.upstream != [] && now == w.Now()
      modifies this
      ensures (State(), out) == FetchAndMaybeStore(cfg, now, old(State()), stale, req)
      ensures w.records == old(State()) && (stale.Some? ==> w.records.meta == stale) && cfg.Valid() && Inv(cfg, w) &&
                ValidatorsIdentify(w.upstream) && Truthful(w, stale, req) ==>
                Inv(cfg, w.(records := State())) && BoundedStaleness(cfg, w, out)
    {
      hide Inv, BoundedStaleness, ValidatorsIdentify, Truthful;
      FetchWasSafe(cfg, w, stale, req);
      var canRevalidate := stale.Some? && (req.verb == Head || stale.value.hasBody);
      if canRevalidate && stale.value.etag == "" && stale.value.lastModified == "" {
        canRevalidate := false;
      }
      if req.reply == NoAnswer {
        if CanServeStale(cfg, now, stale) && Usable(req, stale.value) {
          return ServeEntry(Stale, req, stale.value, body);
        }
        return BadGateway;
      }
      if req.reply.NotModified? && canRevalidate {
        var m := Refreshed(cfg, now, stale.value, req);
        var _ := StoreMetadata(m, req.faults.metaWriteFails);
        return ServeEntry(Revalidated, req, m, body);
      }
      if req.reply == Gone {
        RemoveEntry();
      }
      if !ShouldStore(cfg, req) {
        return Forwarded;
      }
      if req.verb == Head {
        body := None;
        var _ := StoreMetadata(MetaOf(cfg, now, req, false), req.faults.metaWriteFails);
        return Forwarded;
      }
      StreamIn(cfg, now, req, None);
      return Forwarded;
    }

    /** One request. If the upstream is truthful, a described entry stays described and a served
        body meets the staleness bound; and whatever the upstream and the client do, metadata
        and body go on matching unless the process stops between the two. */
    method Serve(cfg: Config, now: int, req: Request, ghost w: World, ghost described: Option<string>)
      returns (out: Output)
      requires w.upstream != [] && now == w.Now() && w.records == State()
      modifies this
      ensures (State(), out) == ServeCacheable(cfg, now, old(State()), req)
      ensures cfg.Valid() && Inv(cfg, w) && ValidatorsIdentify(w.upstream) && Allowed(w, Ask(req)) ==>
                Inv(cfg, w.(records := State())) && BoundedStaleness(cfg, w, out)
      ensures Matches(old(State()), described) && !Tears(cfg, now, old(State()), req, described) ==>
                Matches(State(), NowDescribed(cfg, now, old(State()), req, described))
    {
      hide Inv, BoundedStaleness, ValidatorsIdentify, Allowed, Matches, Tears, NowDescribed, FetchAndMaybeStore,
          ServeEntry;
      AskWasSafe(cfg, w, req);
      AskKeepsMatch(cfg, now, w.records, req, described);
      var m := LoadMetadata();
      if m.Some? && Usable(req, m.value) && now < m.value.freshUntil {
        out := ServeEntry(Fresh, req, m.value, body);
        if out != Nothing {
          return;
        }
        RemoveEntry();
      }
      // The request now holds the flight for its key and looks again.
      var stale := LoadMetadata();
      out := Fetch(cfg, now, stale, req, w);
    }
  }
}
