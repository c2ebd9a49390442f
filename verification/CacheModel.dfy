/** The vocabulary of the disk cache (cache/cache.go): records, eviction runs, what is durable, and
    what recovery makes of it. SHA-256 is taken to be injective, so the file name that is the
    hash of a key is written `Final(key)`. */
module CacheModel {
  import opened Numbers

  type Key = string
  type Bytes = string

  /** Where files live. Put writes Final(key) by way of a Temp file in the same subdirectory;
      streaming writes either Final(key) or, below the `streams` directory, Streams(key).
      Legacy files are left from earlier versions and have no known key. */
  datatype Path = Final(key: Key) | Streams(key: Key) | Temp(id: nat) | StreamTemp(id: nat) | Legacy(name: string)

  predicate OwnPath(p: Path, k: Key) {
    p == Final(k) || p == Streams(k)
  }

  /** An in-memory entry, or the row that mirrors it. An expiry of zero means never. */
  datatype Record = Record(path: Path, size: nat, createdAt: int, accessedAt: int, expiresAt: int)

  type Entries = map<Key, Record>

  predicate Expired(r: Record, now: int) {
    r.expiresAt != 0 && now > r.expiresAt
  }

  // ----- Sizes -----

  ghost function TotalSize(m: Entries): nat {
    if m == map[] then 0 else
      var k :| k in m;
      m[k].size + TotalSize(m - {k})
  }

  lemma {:induction false} TotalRemove(m: Entries, k: Key)
    requires k in m
    ensures TotalSize(m) == m[k].size + TotalSize(m - {k})
    decreases |m|
  {
    var j :| j in m && TotalSize(m) == m[j].size + TotalSize(m - {j});
    if j != k {
      TotalRemove(m - {j}, k);
      TotalRemove(m - {k}, j);
      assert m - {j} - {k} == m - {k} - {j};
    }
  }

  lemma TotalInsert(m: Entries, k: Key, r: Record)
    ensures TotalSize(m[k := r]) == r.size + TotalSize(m - {k})
  {
    TotalRemove(m[k := r], k);
    assert m[k := r] - {k} == m - {k};
  }

  /** The path, and with it the file, belongs to one key only. */
  ghost predicate PathsOwned(m: Entries) {
    forall k :: k in m ==> OwnPath(m[k].path, k)
  }

  // ----- Eviction runs -----

  /** LRU eviction goes by access, soft eviction by creation. */
  function Stamp(r: Record, byAccess: bool): int {
    if byAccess then r.accessedAt else r.createdAt
  }

  predicate Distinct(ks: seq<Key>) {
    forall i, j :: 0 <= i < j < |ks| ==> ks[i] != ks[j]
  }

  function KeySet(ks: seq<Key>): set<Key> {
    set k | k in ks
  }

  function Without(m: Entries, ks: seq<Key>): Entries {
    m - KeySet(ks)
  }

  function Sizes(m: Entries, ks: seq<Key>): nat
    requires forall k :: k in ks ==> k in m
  {
    if ks == [] then 0 else Sizes(m, ks[..|ks| - 1]) + m[ks[|ks| - 1]].size
  }

  /** `victims` were removed in this order: oldest first, and nothing that stays is older than
      anything that goes. */
  ghost predicate OldestFirst(m: Entries, victims: seq<Key>, byAccess: bool) {
    && Distinct(victims)
    && (forall i :: 0 <= i < |victims| ==> victims[i] in m)
    && (forall i, j :: 0 <= i < j < |victims| ==> Stamp(m[victims[i]], byAccess) <= Stamp(m[victims[j]], byAccess))
    && (forall i, k :: 0 <= i < |victims| && k in m && k !in victims ==>
         Stamp(m[victims[i]], byAccess) <= Stamp(m[k], byAccess))
  }

  /** Removal stopped as soon as the limit was met, or when nothing was left. */
  ghost predicate StoppedInTime(m: Entries, total: int, limit: int, victims: seq<Key>)
    requires forall k :: k in victims ==> k in m
  {
    && (forall n :: 0 <= n < |victims| ==>
         (forall k :: k in victims[..n] ==> k in m) && total - Sizes(m, victims[..n]) > limit)
    && (total - Sizes(m, victims) <= limit || Without(m, victims) == map[])
  }

  ghost predicate EvictionRun(m: Entries, total: int, limit: int, byAccess: bool, victims: seq<Key>) {
    OldestFirst(m, victims, byAccess) && (forall k :: k in victims ==> k in m) &&
        StoppedInTime(m, total, limit, victims)
  }

  lemma WithoutSnoc(m: Entries, ks: seq<Key>, k: Key)
    ensures Without(m, ks + [k]) == Without(m, ks) - {k}
  {
    assert KeySet(ks + [k]) == KeySet(ks) + {k};
  }

  lemma {:induction false} SizesAndRest(m: Entries, ks: seq<Key>)
    requires Distinct(ks) && forall k :: k in ks ==> k in m
    ensures TotalSize(m) == Sizes(m, ks) + TotalSize(Without(m, ks))
  {
    if ks == [] {
      assert Without(m, ks) == m;
    } else {
      var front, last := ks[..|ks| - 1], ks[|ks| - 1];
      assert ks == front + [last];
      SizesAndRest(m, front);
      WithoutSnoc(m, front, last);
      assert last !in front;
      TotalRemove(Without(m, front), last);
    }
  }

  /** If no two entries have the same stamp, an eviction has one possible outcome, whatever order
      the map was listed in and however the sort treats it. */
  lemma EvictionDeterministic(m: Entries, total: int, limit: int, byAccess: bool, v: seq<Key>, w: seq<Key>)
    requires EvictionRun(m, total, limit, byAccess, v) && EvictionRun(m, total, limit, byAccess, w)
    requires forall j, k :: j in m && k in m && Stamp(m[j], byAccess) == Stamp(m[k], byAccess) ==> j == k
    ensures v == w
  {
    if |v| <= |w| {
      SamePrefix(m, byAccess, v, w, |v|);
      NotLonger(m, total, limit, byAccess, v, w);
    } else {
      SamePrefix(m, byAccess, w, v, |w|);
      NotLonger(m, total, limit, byAccess, w, v);
    }
  }

  lemma {:induction false} SamePrefix(m: Entries, byAccess: bool, v: seq<Key>, w: seq<Key>, n: nat)
    requires OldestFirst(m, v, byAccess) && OldestFirst(m, w, byAccess) && n <= |v| && n <= |w|
    requires forall j, k :: j in m && k in m && Stamp(m[j], byAccess) == Stamp(m[k], byAccess) ==> j == k
    ensures v[..n] == w[..n]
  {
    if n > 0 {
      SamePrefix(m, byAccess, v, w, n - 1);
      NthIsLeast(m, byAccess, v, w, n - 1);
      NthIsLeast(m, byAccess, w, v, n - 1);
      assert v[..n] == v[..n - 1] + [v[n - 1]] && w[..n] == w[..n - 1] + [w[n - 1]];
    }
  }

  lemma NthIsLeast(m: Entries, byAccess: bool, v: seq<Key>, w: seq<Key>, n: nat)
    requires OldestFirst(m, v, byAccess) && OldestFirst(m, w, byAccess) && n < |v| && n < |w| && v[..n] == w[..n]
    ensures v[n] in m && w[n] in m && Stamp(m[v[n]], byAccess) <= Stamp(m[w[n]], byAccess)
  {
    forall i | 0 <= i < n ensures v[i] == w[i] && v[i] != w[n] {
      assert v[..n][i] == w[..n][i];
    }
  }

  lemma StillThere(m: Entries, ks: seq<Key>, k: Key)
    requires k in m && k !in ks
    ensures Without(m, ks) != map[]
  {
    assert k in Without(m, ks);
  }

  lemma NotLonger(m: Entries, total: int, limit: int, byAccess: bool, v: seq<Key>, w: seq<Key>)
    requires EvictionRun(m, total, limit, byAccess, v) && EvictionRun(m, total, limit, byAccess, w)
    requires |v| <= |w| && v == w[..|v|]
    ensures v == w
  {
    if |v| < |w| {
      assert total - Sizes(m, w[..|v|]) > limit;
      forall i | 0 <= i < |v| ensures v[i] != w[|v|] { assert v[i] == w[..|v|][i]; }
      StillThere(m, v, w[|v|]);
    }
  }

  /** The dichotomy of Put: when the newest key's size and the unkeyed bytes fit the limit, LRU
      eviction spares it; otherwise it empties the cache. */
  lemma NewestSurvivesIffItFits(m: Entries, unkeyed: nat, limit: int, victims: seq<Key>, key: Key)
    requires EvictionRun(m, TotalSize(m) + unkeyed, limit, true, victims)
    requires key in m && forall k :: k in m && k != key ==> m[k].accessedAt < m[key].accessedAt
    ensures key in Without(m, victims) <==> m[key].size + unkeyed <= limit
    ensures key !in Without(m, victims) ==> Without(m, victims) == map[]
  {
    SizesAndRest(m, victims);
    var rest := Without(m, victims);
    if key in rest {
      TotalRemove(rest, key);
      assert rest[key] == m[key];
    } else {
      assert key in victims;
      var i :| 0 <= i < |victims| && victims[i] == key;
      assert forall k :: k in m && k !in victims ==> Stamp(m[victims[i]], true) <= Stamp(m[k], true);
      assert rest == map[];
      var n := |victims| - 1;
      assert victims[n] in m && victims[n] == key;
      assert TotalSize(m) + unkeyed - Sizes(m, victims[..n]) > limit;
      assert Sizes(m, victims) == Sizes(m, victims[..n]) + m[key].size;
    }
  }

  /** An eviction's result is within the limit unless nothing is left. */
  lemma EvictionMeetsLimit(m: Entries, unkeyed: nat, limit: int, byAccess: bool, victims: seq<Key>)
    requires EvictionRun(m, TotalSize(m) + unkeyed, limit, byAccess, victims)
    ensures TotalSize(Without(m, victims)) + unkeyed <= limit || Without(m, victims) == map[]
    ensures forall k, j :: k in Without(m, victims) && j in victims ==> Stamp(m[j], byAccess) <= Stamp(m[k], byAccess)
  {
    SizesAndRest(m, victims);
    forall k, j | k in Without(m, victims) && j in victims ensures Stamp(m[j], byAccess) <= Stamp(m[k], byAccess) {
      var i :| 0 <= i < |victims| && victims[i] == j;
      assert k in m && k !in victims;
    }
  }

  // ----- What is durable, and what it may be after a stop -----

  /** What survives the process: the files, and the rows of the metadata table. */
  datatype Durable = Durable(disk: map<Path, Bytes>, rows: Entries)

  /** What the callers have been told: the bytes of the last finished Put or registration of every
      key, and the one in progress. A key is in `moved` when the row write of a finished one
      failed and the row left behind names another file. */
  datatype History = History(latest: map<Key, Bytes>, busy: Option<(Key, Bytes)>, moved: set<Key>,
    clock: int, sites: set<Path>)

  /** The whole of some store: the last finished one, or the one in progress. */
  predicate Complete(h: History, k: Key, b: Bytes) {
    (k in h.latest && h.latest[k] == b) || h.busy == Some((k, b))
  }

  /** Nothing is dated after the clock, or accessed before it was created. */
  ghost predicate TimesInv(m: Entries, clock: int) {
    forall k :: k in m ==> m[k].createdAt <= m[k].accessedAt <= clock
  }

  /** Rows name only paths that have been stored to, and a moved key has been stored at two. */
  ghost predicate SitesInv(rows: Entries, h: History) {
    && (forall k :: k in rows ==> rows[k].path in h.sites)
    && (forall k :: k in h.moved ==> Final(k) in h.sites && Streams(k) in h.sites)
  }

  /** Every row names a file of its own key and is not dated after the clock; and if the file is
      there it is complete. */
  ghost predicate SafePoint(d: Durable, h: History) {
    && PathsOwned(d.rows) && TimesInv(d.rows, h.clock) && SitesInv(d.rows, h)
    && forall k :: k in d.rows && d.rows[k].path in d.disk && k !in h.moved ==> Complete(h, k, d.disk[d.rows[k].path])
  }

  /** Every file at a final path is whole: it holds all of the bytes that were once given for its
      key. */
  ghost predicate WholeFiles(disk: map<Path, Bytes>, whole: set<(Key, Bytes)>) {
    forall p :: p in disk && (p.Final? || p.Streams?) ==> (p.key, disk[p]) in whole
  }

  /** Losing files or rows never makes a point unsafe. */
  lemma SafeShrinks(d: Durable, e: Durable, h: History)
    requires SafePoint(d, h)
    requires forall k :: k in e.rows ==> k in d.rows && e.rows[k] == d.rows[k]
    requires forall p :: p in e.disk && (p.Final? || p.Streams?) ==> p in d.disk && e.disk[p] == d.disk[p]
    ensures SafePoint(e, h)
  {
  }

  /** The entries that recovery builds: rows that have not expired and whose file is there, with
      the size the file really has. */
  function Recovered(d: Durable, now: int): Entries {
    map k | k in d.rows && !Expired(d.rows[k], now) && d.rows[k].path in d.disk
      :: d.rows[k].(size := |d.disk[d.rows[k].path]|)
  }

  /** Wherever the process stops, every key that recovery finds has a file of its own with its real
      size, whole; and unless its row was left behind by a failed write, from its last finished
      Put or the one that was in progress. */
  lemma RecoveryFindsCompleteFiles(d: Durable, h: History, whole: set<(Key, Bytes)>, now: int, k: Key)
    requires SafePoint(d, h) && WholeFiles(d.disk, whole) && k in Recovered(d, now)
    ensures var e := Recovered(d, now)[k];
            && OwnPath(e.path, k) && e.path in d.disk && e.size == |d.disk[e.path]|
            && (e.expiresAt == 0 || now <= e.expiresAt)
            && (k, d.disk[e.path]) in whole
            && (k !in h.moved ==> Complete(h, k, d.disk[e.path]))
    ensures forall j :: j in Recovered(d, now) && j != k ==> Recovered(d, now)[j].path != Recovered(d, now)[k].path
  {
  }
}
