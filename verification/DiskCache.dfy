/** The disk cache of cache/cache.go, in place: entries, byte counter, metadata table and files.
    One operation at a time, as under its mutex; a stop is possible between any two durable
    changes. */
module DiskCache {
  import opened Numbers
  import opened CacheModel
  import opened Like

  // ----- The parts of the invariant, as properties of values -----

  /** The byte counter: the entries, and the bytes found at recovery that no entry names. */
  ghost predicate CountInv(entries: Entries, totalSize: int, unkeyed: nat) {
    totalSize == TotalSize(entries) + unkeyed
  }

  /** Every entry has a file of its own that holds the bytes last stored under its key. */
  ghost predicate FilesInv(entries: Entries, disk: map<Path, Bytes>, latest: map<Key, Bytes>) {
    forall k :: k in entries ==> FileInv(k, entries[k], disk, latest)
  }

  predicate FileInv(k: Key, e: Record, disk: map<Path, Bytes>, latest: map<Key, Bytes>) {
    OwnPath(e.path, k) && e.path in disk && k in latest && disk[e.path] == latest[k] && e.size == |latest[k]|
  }

  /** A row says what its entry says, except that its access time may lag behind. */
  predicate RowMatches(r: Record, e: Record) {
    r == e.(accessedAt := r.accessedAt) && r.accessedAt <= e.accessedAt
  }

  /** A row that is there has its entry and says the same, except for `dirty` keys: their last row
      write did not happen. */
  ghost predicate RowsInv(rows: Entries, entries: Entries, dirty: set<Key>) {
    forall k :: k in rows && k !in dirty ==> k in entries && RowMatches(rows[k], entries[k])
  }

  /** One change of what is durable: a file written (or grown), removed or renamed over another, or
      one statement on the table. Each is atomic. */
  datatype Change =
    | NoChange
    | Write(p: Path, b: Bytes) | Unlink(p: Path) | Rename(tmp: Path, p: Path)
    | SetRow(k: Key, r: Record) | DropRows(keys: set<Key>)

  function Changed(d: Durable, cause: Change): Durable {
    match cause
    case NoChange => d
    case Write(p, b) => d.(disk := d.disk[p := b])
    case Unlink(p) => d.(disk := d.disk - {p})
    case Rename(tmp, p) => if tmp in d.disk then d.(disk := d.disk[p := d.disk[tmp]] - {tmp}) else d
    case SetRow(k, r) => d.(rows := d.rows[k := r])
    case DropRows(keys) => d.(rows := d.rows - keys)
  }

  /** Only temporary files are written piece by piece, and only a whole one is renamed. */
  predicate WholeChange(d: Durable, cause: Change, whole: set<(Key, Bytes)>) {
    match cause
    case Write(p, _) => p.Temp? || p.StreamTemp?
    case Rename(tmp, p) => tmp in d.disk && (p.Final? || p.Streams?) ==> (p.key, d.disk[tmp]) in whole
    case _ => true
  }

  lemma ChangeKeepsWhole(d: Durable, cause: Change, whole: set<(Key, Bytes)>)
    requires WholeFiles(d.disk, whole) && WholeChange(d, cause, whole)
    ensures WholeFiles(Changed(d, cause).disk, whole)
  {
  }

  /** A durable state the cache has been through, the history at that moment, and the change that
      led there. */
  datatype Point = Point(durable: Durable, history: History, cause: Change)

  /** The points lead to the present state by single changes, so they are all the durable states
      there have been; each of them is safe, and no file at a final path is ever a part. */
  ghost predicate Traced(points: seq<Point>, here: Durable, whole: set<(Key, Bytes)>, clock: int) {
    && points != [] && points[|points| - 1].durable == here
    && (forall i :: 0 <= i < |points| ==> SafePoint(points[i].durable, points[i].history))
    && (forall i :: 0 <= i < |points| ==> points[i].history.clock <= clock)
    && (forall i :: 0 <= i < |points| ==> WholeFiles(points[i].durable.disk, whole))
    && (forall i :: 0 < i < |points| ==> points[i].durable == Changed(points[i - 1].durable, points[i].cause))
  }

  /** From point n on, the histories are those of one operation: before it is finished they give the
      bytes `before`, and it may be in progress; afterwards they give `after`. All the while only keys
      of `moved` have a row that names another file than the last store wrote. */
  ghost predicate Tells(points: seq<Point>, n: nat, before: map<Key, Bytes>, after: map<Key, Bytes>,
      busy: Option<(Key, Bytes)>, moved: set<Key>) {
    forall i :: n <= i < |points| ==>
      var h := points[i].history;
      && h.moved <= moved
      && ((h.latest == before && (h.busy == None || h.busy == busy)) || (h.latest == after && h.busy == None))
  }

  lemma TellsOn(p0: seq<Point>, p1: seq<Point>, p2: seq<Point>, before: map<Key, Bytes>, after: map<Key, Bytes>,
                busy: Option<(Key, Bytes)>, moved: set<Key>)
    requires p0 <= p1 <= p2 && Tells(p1, |p0|, before, before, busy, moved)
    requires Tells(p2, |p1|, before, after, busy, moved)
    ensures Tells(p2, |p0|, before, after, busy, moved)
  {
  }

  lemma TellsNothing(p0: seq<Point>, latest: map<Key, Bytes>, busy: Option<(Key, Bytes)>, moved: set<Key>)
    ensures Tells(p0, |p0|, latest, latest, busy, moved)
  {
  }

  /** One more point, at which the operation is finished. */
  lemma TellsEnd(p0: seq<Point>, p1: seq<Point>, p2: seq<Point>, h: History, end: History)
    requires p0 <= p1 <= p2 && Tells(p1, |p0|, h.latest, h.latest, h.busy, h.moved)
    requires (forall i :: |p1| <= i < |p2| ==> p2[i].history == end) && end.busy == None && end.moved == {}
    ensures Tells(p2, |p0|, h.latest, end.latest, h.busy, h.moved)
  {
  }

  lemma TraceGrows(points: seq<Point>, before: Durable, here: Durable, h: History, cause: Change,
      whole: set<(Key, Bytes)>, clock: int)
    requires Traced(points, before, whole, clock) && SafePoint(here, h) && here == Changed(before, cause)
    requires WholeChange(before, cause, whole) && h.clock <= clock
    ensures Traced(points + [Point(here, h, cause)], here, whole, clock)
  {
    hide Changed, SafePoint, WholeFiles, WholeChange;
    var longer := points + [Point(here, h, cause)];
    ChangeKeepsWhole(before, cause, whole);
    forall i | 0 < i < |longer| ensures longer[i].durable == Changed(longer[i - 1].durable, longer[i].cause) {
      if i == |points| { assert longer[i - 1] == points[|points| - 1]; }
    }
  }

  lemma WholeGrows(points: seq<Point>, here: Durable, whole: set<(Key, Bytes)>, clock: int, key: Key, data: Bytes)
    requires Traced(points, here, whole, clock)
    ensures Traced(points, here, whole + {(key, data)}, clock)
  {
    hide SafePoint, Changed;
  }

  /** Time passes. */
  lemma ClockAdvances(points: seq<Point>, here: Durable, whole: set<(Key, Bytes)>, h: History, clock: int, now: int)
    requires Traced(points, here, whole, clock) && SafePoint(here, h) && h.clock <= clock <= now
    ensures Traced(points, here, whole, now) && SafePoint(here, h.(clock := now))
  {
    hide Changed, WholeFiles;
  }

  // ----- How single changes keep the parts -----

  lemma RemovalKeepsFiles(entries: Entries, disk: map<Path, Bytes>, latest: map<Key, Bytes>, key: Key, gone: set<Path>)
    requires FilesInv(entries, disk, latest) && key in entries && gone <= {entries[key].path}
    ensures FilesInv(entries - {key}, disk - gone, latest)
  {
  }

  lemma EntryGoes(entries: Entries, totalSize: int, unkeyed: nat, rows: Entries, dirty: set<Key>, clock: int, key: Key)
    requires key in entries && CountInv(entries, totalSize, unkeyed) && TimesInv(entries, clock) &&
              RowsInv(rows, entries, dirty)
    ensures CountInv(entries - {key}, totalSize - entries[key].size, unkeyed) && TimesInv(entries - {key}, clock)
    ensures RowsInv(rows - {key}, entries - {key}, dirty - {key}) && RowsInv(rows, entries - {key}, dirty + {key})
  {
    TotalRemove(entries, key);
  }

  /** What must hold after the new file is in place and before the entry and its row are written. */
  ghost predicate OthersInv(entries: Entries, disk: map<Path, Bytes>, latest: map<Key, Bytes>, key: Key) {
    forall k :: k in entries && k != key ==> FileInv(k, entries[k], disk, latest)
  }

  lemma FileChangeKeepsSafety(d: Durable, h: History, p: Path, b: Bytes)
    requires SafePoint(d, h) && (p.Temp? || p.StreamTemp?)
    ensures SafePoint(d.(disk := d.disk[p := b]), h)
  {
  }

  /** Renaming the finished file onto its final path, while its store is in progress. */
  lemma RenameKeepsSafety(d: Durable, h: History, key: Key, tmp: Path, p: Path, b: Bytes)
    requires SafePoint(d, h) && OwnPath(p, key) && h.busy == Some((key, b))
    ensures SafePoint(d.(disk := d.disk[p := b] - {tmp}), h)
  {
  }

  /** A key is moved when its row was not written and names another file than the one just stored. */
  function MovedAfter(moved: set<Key>, rows: Entries, key: Key, path: Path, written: bool): set<Key> {
    if !written && key in rows && rows[key].path != path then moved + {key} else moved - {key}
  }

  function Upserted(rows: Entries, key: Key, e: Record, written: bool): Entries {
    if written then rows[key := e] else rows
  }

  /** Writing the row, and then calling the store finished. */
  lemma RowWriteKeepsSafety(d: Durable, h: History, key: Key, r: Record, b: Bytes, written: bool)
    requires SafePoint(d, h) && OwnPath(r.path, key) && h.busy == Some((key, b))
    requires r.path in d.disk && d.disk[r.path] == b && r.path in h.sites && r.createdAt <= r.accessedAt <= h.clock
    ensures var rows := if written then d.rows[key := r] else d.rows;
            var moved := MovedAfter(h.moved, d.rows, key, r.path, written);
            && SafePoint(d.(rows := rows), h.(moved := moved))
            && SafePoint(d.(rows := rows), h.(latest := h.latest[key := b], busy := None, moved := moved))
  {
  }

  function Below(entries: Entries, prefix: string): set<Key> {
    set k | k in entries && prefix <= k
  }

  function Matching(entries: Entries, matches: Key -> bool): set<Key> {
    set k | k in entries && matches(k)
  }

  lemma NothingGone(entries: Entries, rows: Entries, badRows: set<Key>, keys: set<Key>)
    ensures entries - (keys - keys) == entries && RowsLeft(rows, keys - keys, badRows) == rows
  {
  }

  lemma OneMoreGone(entries: Entries, gone: set<Key>, keys: set<Key>, rest: set<Key>, key: Key)
    requires key in rest && rest <= keys && gone == keys - rest && keys <= entries.Keys
    ensures keys - (rest - {key}) == gone + {key} && key in entries - gone
    ensures entries - gone - {key} == entries - (gone + {key})
  {
  }

  /** The rows after deletions, some of which fail. */
  function RowsLeft(rows: Entries, gone: set<Key>, badRows: set<Key>): Entries {
    rows - (gone - badRows)
  }

  lemma RowGoes(rows: Entries, gone: set<Key>, badRows: set<Key>, key: Key)
    ensures RowsLeft(rows, gone + {key}, badRows) ==
            if key in badRows then RowsLeft(rows, gone, badRows) else RowsLeft(rows, gone, badRows) - {key}
  {
    assert key in badRows ==> gone + {key} - badRows == gone - badRows;
  }

  /** The paths of the entries that went. */
  function Dropped(before: Entries, after: Entries): set<Path> {
    set k | k in before && k !in after :: before[k].path
  }

  /** Some entries went, and with each of them its file and its row, as far as these can be deleted;
      what is left is as it was. */
  ghost predicate TookAway(e0: Entries, d0: Durable, e1: Entries, d1: Durable, open: bool, stuck: set<Path>,
      badRows: set<Key>) {
    && (forall k :: k in e1 ==> k in e0 && e1[k] == e0[k])
    && d1.disk == d0.disk - (Dropped(e0, e1) - stuck)
    && d1.rows == if open then d0.rows - (e0.Keys - e1.Keys - badRows) else d0.rows
  }

  lemma TookNone(e: Entries, d: Durable, open: bool, stuck: set<Path>, badRows: set<Key>)
    ensures TookAway(e, d, e, d, open, stuck, badRows)
  {
    assert Dropped(e, e) == {};
    assert d.rows - (e.Keys - e.Keys - badRows) == d.rows;
  }

  lemma TookOne(e: Entries, d: Durable, key: Key, open: bool, stuck: set<Path>, badRows: set<Key>)
    requires key in e
    ensures var disk := d.disk - (if e[key].path in stuck then {} else {e[key].path});
            var rows := if open && key !in badRows then d.rows - {key} else d.rows;
            TookAway(e, d, e - {key}, Durable(disk, rows), open, stuck, badRows)
  {
    assert Dropped(e, e - {key}) == {e[key].path};
    assert e.Keys - (e - {key}).Keys == {key};
    assert d.rows - {} == d.rows;
    assert key in badRows ==> {key} - badRows == {};
    assert key !in badRows ==> {key} - badRows == {key};
  }

  lemma TookMore(e0: Entries, d0: Durable, e1: Entries, d1: Durable, e2: Entries, d2: Durable, open: bool,
                 stuck: set<Path>, badRows: set<Key>)
    requires TookAway(e0, d0, e1, d1, open, stuck, badRows) && TookAway(e1, d1, e2, d2, open, stuck, badRows)
    ensures TookAway(e0, d0, e2, d2, open, stuck, badRows)
  {
    assert Dropped(e0, e2) == Dropped(e0, e1) + Dropped(e1, e2) by {
      forall k | k in e0 && k !in e2 ensures e0[k].path in Dropped(e0, e1) + Dropped(e1, e2) {
        assert k in e1 ==> e1[k].path in Dropped(e1, e2);
        assert k !in e1 ==> e0[k].path in Dropped(e0, e1);
      }
      forall k | k in e1 && k !in e2 ensures e1[k].path in Dropped(e0, e2) { assert e0[k] == e1[k]; }
    }
    assert e0.Keys - e2.Keys - badRows == (e0.Keys - e1.Keys - badRows) + (e1.Keys - e2.Keys - badRows);
  }

  lemma KeysSplit(entries: Entries, gone: set<Key>)
    requires gone <= entries.Keys
    ensures |entries| == |entries - gone| + |gone|
  {
    assert entries.Keys == (entries - gone).Keys + gone;
  }

  /** The rows that the prefix sweep leaves. */
  function Unswept(rows: Entries, prefix: string): Entries {
    map k | k in rows && !Swept(prefix, k) :: rows[k]
  }

  /** Entries that stay although their row is swept. */
  function Bystanders(entries: Entries, prefix: string): set<Key> {
    set k | k in entries && Swept(prefix, k)
  }

  lemma SweepLeavesRowsRight(rows: Entries, entries: Entries, dirty: set<Key>, prefix: string)
    requires RowsInv(rows, entries, dirty)
    ensures RowsInv(Unswept(rows, prefix), entries, dirty)
    ensures entries.Keys - Unswept(rows, prefix).Keys <= entries.Keys - rows.Keys + Bystanders(entries, prefix)
  {
    hide Swept;
  }

  /** Rows below the prefix are swept anyway, so deleting them first changes nothing. */
  lemma SweepAfterRemoval(rows: Entries, gone: set<Key>, badRows: set<Key>, prefix: string)
    requires forall k :: k in gone ==> prefix <= k
    ensures Unswept(RowsLeft(rows, gone, badRows), prefix) == Unswept(rows, prefix)
    ensures forall k :: k in Unswept(rows, prefix) ==> !(prefix <= k)
  {
    hide Swept;
    forall k | prefix <= k ensures Swept(prefix, k) {
      PrefixIsSwept(prefix, k);
    }
  }

  // ----- The cache -----

  datatype WriteFault = NoFault | NoDirectory | NoTemp | CopyFails(after: nat) | CloseFails | RenameFails

  const MINUTE: int := 60_000_000_000

  class Cache {
    const maxSize: int
    const ttl: int
    /** The soft limit in bytes, if soft eviction is enabled. */
    const softLimit: Option<int>

    var entries: Entries
    var totalSize: int
    var rows: Entries
    var tableOpen: bool
    var disk: map<Path, Bytes>

    // What the operating system and the database refuse to do at present.
    var stuck: set<Path>
    var badRows: set<Key>
    var sweepFails: bool

    ghost var unkeyed: nat
    ghost var latest: map<Key, Bytes>
    ghost var clock: int
    ghost var dirty: set<Key>
    ghost var moved: set<Key>
    /** Keys and bytes of all stores whose file has got its final name. */
    ghost var whole: set<(Key, Bytes)>
    /** The paths of the rows found at the start and of all stores since. */
    ghost var sites: set<Path>
    ghost var points: seq<Point>

    ghost predicate Valid()
      reads this
    {
      && CountInv(entries, totalSize, unkeyed)
      && FilesInv(entries, disk, latest)
      && RowsInv(rows, entries, dirty)
      && TimesInv(entries, clock)
      && SafePoint(Here(), Told())
      && Traced(points, Here(), whole, clock)
    }

    ghost function Here(): Durable
      reads this
    {
      Durable(disk, rows)
    }

    ghost function Told(): History
      reads this
    {
      History(latest, None, moved, clock, sites)
    }

    /** Entries without a row: a restart would not find them. */
    ghost function Lacking(): set<Key>
      reads this
    {
      entries.Keys - rows.Keys
    }

    /** Records the present durable state as one at which the process may stop. */
    ghost method Mark(before: Durable, h: History, cause: Change)
      requires Traced(points, before, whole, clock) && WholeChange(before, cause, whole) && SafePoint(Here(), h)
      requires Here() == Changed(before, cause) && h.clock <= clock
      modifies this`points
      ensures Traced(points, Here(), whole, clock) && points == old(points) + [Point(Here(), h, cause)]
    {
      TraceGrows(points, before, Here(), h, cause, whole, clock);
      points := points + [Point(Here(), h, cause)];
    }

    /** The same durable state, with a new history. */
    ghost method MarkSame(h: History)
      requires Traced(points, Here(), whole, clock) && SafePoint(Here(), h) && h.clock <= clock
      modifies this`points
      ensures Traced(points, Here(), whole, clock) && points == old(points) + [Point(Here(), h, NoChange)]
    {
      Mark(Here(), h, NoChange);
    }

    /** The environment may start or stop refusing things between operations. */
    method Disturb(stuck: set<Path>, badRows: set<Key>, sweepFails: bool)
      requires Valid()
      modifies this`stuck, this`badRows, this`sweepFails
      ensures Valid() && this.stuck == stuck && this.badRows == badRows && this.sweepFails == sweepFails
    {
      hide SafePoint, Traced, FilesInv, CountInv, TimesInv, RowsInv;
      this.stuck, this.badRows, this.sweepFails := stuck, badRows, sweepFails;
    }

    // ----- Removal -----

    /** os.Remove, whose failure is ignored. */
    method RemoveFile(p: Path, ghost h: History)
      requires Traced(points, Here(), whole, clock) && SafePoint(Here(), h) && h.clock <= clock
      modifies this`disk, this`points
      ensures old(points) <= points
      ensures Tells(points, |old(points)|, h.latest, h.latest, h.busy, h.moved)
      ensures Traced(points, Here(), whole, clock) && SafePoint(Here(), h)
      ensures disk == old(disk) - (if p in stuck then {} else {p})
    {
      hide SafePoint, Traced;
      ghost var before := Here();
      SafeShrinks(before, Durable(disk - {p}, rows), h);
      assert disk - {} == disk;
      if p !in stuck {
        disk := disk - {p};
        Mark(before, h, Unlink(p));
      }
    }

    method DeleteRow(key: Key, ghost h: History)
      requires Traced(points, Here(), whole, clock) && SafePoint(Here(), h) && h.clock <= clock
      modifies this`rows, this`dirty, this`points
      ensures old(points) <= points
      ensures Tells(points, |old(points)|, h.latest, h.latest, h.busy, h.moved)
      ensures Traced(points, Here(), whole, clock) && SafePoint(Here(), h)
      ensures rows == (if tableOpen && key !in badRows then old(rows) - {key} else old(rows))
      ensures dirty == (if tableOpen && key !in badRows then old(dirty) - {key} else old(dirty) + {key})
    {
      hide SafePoint, Traced;
      ghost var before := Here();
      SafeShrinks(before, Durable(disk, rows - {key}), h);
      if tableOpen && key !in badRows {
        rows := rows - {key};
        dirty := dirty - {key};
        Mark(before, h, DropRows({key}));
      } else {
        dirty := dirty + {key};
      }
    }

    /** Removes the file, the entry and the row, in this order. */
    method RemoveLocked(key: Key)
      requires Valid() && key in entries
      modifies this`entries, this`totalSize, this`rows, this`disk, this`dirty, this`points
      ensures old(points) <= points
      ensures Tells(points, |old(points)|, latest, latest, None, moved)
      ensures Valid()
      ensures entries == old(entries) - {key} && totalSize == old(totalSize) - old(entries)[key].size
      ensures rows == (if tableOpen && key !in badRows then old(rows) - {key} else old(rows))
      ensures disk == old(disk) - (if old(entries)[key].path in stuck then {} else {old(entries)[key].path})
      ensures Lacking() <= old(Lacking()) && (tableOpen ==> dirty <= old(dirty) + badRows)
      ensures TookAway(old(entries), old(Here()), entries, Here(), tableOpen, stuck, badRows)
    {
      hide SafePoint, Traced, FilesInv, CountInv, TimesInv, RowsInv, TookAway, Tells;
      var e := entries[key];
      TookOne(entries, Here(), key, tableOpen, stuck, badRows);
      EntryGoes(entries, totalSize, unkeyed, rows, dirty, clock, key);
      RemovalKeepsFiles(entries, disk, latest, key, if e.path in stuck then {} else {e.path});
      RemoveFile(e.path, Told());
      totalSize := totalSize - e.size;
      entries := entries - {key};
      ghost var mid := points;
      DeleteRow(key, Told());
      TellsOn(old(points), mid, points, latest, latest, None, moved);
    }

    /** Remove. */
    method Remove(key: Key)
      requires Valid()
      modifies this`entries, this`totalSize, this`rows, this`disk, this`dirty, this`points
      ensures old(points) <= points
      ensures Tells(points, |old(points)|, latest, latest, None, moved)
      ensures Valid() && entries == old(entries) - {key}
      ensures Lacking() <= old(Lacking()) && (tableOpen ==> dirty <= old(dirty) + badRows)
      ensures TookAway(old(entries), old(Here()), entries, Here(), tableOpen, stuck, badRows)
    {
      if key in entries {
        RemoveLocked(key);
      } else {
        TookNone(entries, Here(), tableOpen, stuck, badRows);
      }
    }

    /** Removes the entries with the given keys, in whatever order the map yields them. */
    method RemoveAll(keys: set<Key>) returns (removed: nat)
      requires Valid() && keys <= entries.Keys
      modifies this`entries, this`totalSize, this`rows, this`disk, this`dirty, this`points
      ensures old(points) <= points
      ensures Tells(points, |old(points)|, latest, latest, None, moved)
      ensures Valid() && entries == old(entries) - keys && removed == |keys|
      ensures Lacking() <= old(Lacking()) && (tableOpen ==> dirty <= old(dirty) + badRows)
      ensures rows == if tableOpen then RowsLeft(old(rows), keys, badRows) else old(rows)
      ensures TookAway(old(entries), old(Here()), entries, Here(), tableOpen, stuck, badRows)
    {
      hide Cache.Valid, Tells, RowsLeft, TookAway;
      NothingGone(entries, rows, badRows, keys);
      removed := 0;
      var rest := keys;
      TellsNothing(points, latest, None, moved);
      TookNone(entries, Here(), tableOpen, stuck, badRows);
      while rest != {}
        invariant Valid() && rest <= keys && entries == old(entries) - (keys - rest) && removed + |rest| == |keys|
        invariant old(points) <= points
        invariant Tells(points, |old(points)|, latest, latest, None, moved)
        invariant Lacking() <= old(Lacking()) && (tableOpen ==> dirty <= old(dirty) + badRows)
        invariant rows == if tableOpen then RowsLeft(old(rows), keys - rest, badRows) else old(rows)
        invariant TookAway(old(entries), old(Here()), entries, Here(), tableOpen, stuck, badRows)
        decreases rest
      {
        var key :| key in rest;
        ghost var mid, e1, d1 := points, entries, Here();
        OneMoreGone(old(entries), keys - rest, keys, rest, key);
        RemoveLocked(key);
        TookMore(old(entries), old(Here()), e1, d1, entries, Here(), tableOpen, stuck, badRows);
        TellsOn(old(points), mid, points, latest, latest, None, moved);
        RowGoes(old(rows), keys - rest, badRows, key);
        rest := rest - {key};
        removed := removed + 1;
      }
      assert keys - rest == keys;
    }

    /** RemoveMatching: removes exactly the entries whose key matches. */
    method RemoveMatching(matches: Key -> bool) returns (removed: nat)
      requires Valid()
      modifies this`entries, this`totalSize, this`rows, this`disk, this`dirty, this`points
      ensures old(points) <= points
      ensures Tells(points, |old(points)|, latest, latest, None, moved)
      ensures Valid() && entries == old(entries) - Matching(old(entries), matches)
      ensures Lacking() <= old(Lacking()) && (tableOpen ==> dirty <= old(dirty) + badRows)
      ensures removed == |old(entries)| - |entries|
      ensures rows == if tableOpen then RowsLeft(old(rows), Matching(old(entries), matches), badRows) else old(rows)
      ensures TookAway(old(entries), old(Here()), entries, Here(), tableOpen, stuck, badRows)
      ensures forall k :: k in entries <==> k in old(entries) && !matches(k)
    {
      hide Cache.Valid, TookAway, RowsLeft;
      KeysSplit(entries, Matching(entries, matches));
      removed := RemoveAll(Matching(entries, matches));
    }

    /** DELETE ... WHERE key LIKE prefix%. */
    method SweepRows(prefix: string)
      requires Valid()
      modifies this`rows, this`points
      ensures old(points) <= points
      ensures Tells(points, |old(points)|, latest, latest, None, moved)
      ensures Valid()
      ensures rows == if tableOpen && !sweepFails then Unswept(old(rows), prefix) else old(rows)
      ensures Lacking() <= old(Lacking()) + Bystanders(entries, prefix)
    {
      hide SafePoint, Traced, FilesInv, CountInv, TimesInv, RowsInv, Swept;
      if tableOpen && !sweepFails {
        var kept := Unswept(rows, prefix);
        ghost var before := Here();
        SweepLeavesRowsRight(rows, entries, dirty, prefix);
        SafeShrinks(before, Durable(disk, kept), Told());
        assert kept == rows - (rows.Keys - kept.Keys);
        rows := kept;
        Mark(before, Told(), DropRows(old(rows).Keys - kept.Keys));
      }
    }

    /** RemoveByPrefix: removes exactly the entries below the prefix, but sweeps every row that is
        LIKE it. Rows below the prefix are gone; a row of an entry that stays can go too. */
    method RemoveByPrefix(prefix: string) returns (removed: nat)
      requires Valid()
      modifies this`entries, this`totalSize, this`rows, this`disk, this`dirty, this`points
      ensures old(points) <= points
      ensures Tells(points, |old(points)|, latest, latest, None, moved)
      ensures Valid() && entries == old(entries) - Below(old(entries), prefix)
      ensures Lacking() <= old(Lacking()) + Bystanders(entries, prefix)
      ensures tableOpen ==> dirty <= old(dirty) + badRows
      ensures removed == |old(entries)| - |entries|
      ensures tableOpen && !sweepFails ==>
                rows == Unswept(old(rows), prefix) && forall k :: k in rows ==> !(prefix <= k)
      ensures forall k :: k in entries <==> k in old(entries) && !(prefix <= k)
      ensures disk == old(disk) - (Dropped(old(entries), entries) - stuck)
    {
      hide Cache.Valid, Unswept, Bystanders, Tells, RowsLeft;
      KeysSplit(entries, Below(entries, prefix));
      SweepAfterRemoval(rows, Below(entries, prefix), badRows, prefix);
      removed := RemoveAll(Below(entries, prefix));
      ghost var mid := points;
      SweepRows(prefix);
      TellsOn(old(points), mid, points, latest, latest, None, moved);
    }

    /** os.RemoveAll on the cache directory: files go in no particular order, the table's file among
        them (`turn` says when), and every state on the way is one at which the process may stop.
        What cannot be removed stays, which may be the table. */
    method WipeFiles(tableStuck: bool, turn: nat)
      requires Traced(points, Here(), whole, clock) && SafePoint(Here(), Told())
      modifies this`disk, this`rows, this`points
      ensures old(points) <= points
      ensures Tells(points, |old(points)|, latest, latest, None, moved)
      ensures Traced(points, Here(), whole, clock) && SafePoint(Here(), Told())
      ensures disk == map p | p in old(disk) && p in stuck :: old(disk)[p]
      ensures rows == if tableStuck then old(rows) else map[]
    {
      hide SafePoint, Traced, Tells;
      var rest, wait, tableLeft := disk.Keys - stuck, turn, !tableStuck;
      TellsNothing(points, latest, None, moved);
      while rest != {} || tableLeft
        invariant Traced(points, Here(), whole, clock) && SafePoint(Here(), Told()) && rest <= disk.Keys - stuck
        invariant old(points) <= points
        invariant Tells(points, |old(points)|, latest, latest, None, moved)
        invariant disk == map p | p in old(disk) && (p in stuck || p in rest) :: old(disk)[p]
        invariant rows == if tableStuck || tableLeft then old(rows) else map[]
        decreases tableLeft, rest
      {
        ghost var mid := points;
        if tableLeft && (wait == 0 || rest == {}) {
          WipeRows();
          tableLeft := false;
        } else {
          var p :| p in rest;
          rest := rest - {p};
          wait := if wait > 0 then wait - 1 else 0;
          RemoveFile(p, Told());
        }
        TellsOn(old(points), mid, points, latest, latest, None, moved);
      }
    }

    method WipeRows()
      requires Traced(points, Here(), whole, clock) && SafePoint(Here(), Told())
      modifies this`rows, this`points
      ensures old(points) <= points
      ensures Tells(points, |old(points)|, latest, latest, None, moved)
      ensures Traced(points, Here(), whole, clock) && SafePoint(Here(), Told()) && rows == map[]
    {
      hide SafePoint, Traced;
      ghost var before := Here();
      SafeShrinks(before, Durable(disk, map[]), Told());
      assert rows - rows.Keys == map[];
      rows := map[];
      Mark(before, Told(), DropRows(old(rows).Keys));
    }

    /** Clear: forgets everything, removes every file that can be removed, and opens the table again,
        which is empty unless its file could not be removed. Returns how many entries and how many
        counted bytes went. */
    method Clear(reopens: bool, tableStuck: bool, turn: nat) returns (removed: nat, freed: int)
      requires Valid()
      modifies this`entries, this`totalSize, this`unkeyed, this`rows, this`tableOpen, this`disk, this`dirty, this`points
      ensures old(points) <= points
      ensures Tells(points, |old(points)|, latest, latest, None, moved)
      ensures Valid() && entries == map[] && totalSize == 0 && unkeyed == 0 && tableOpen == reopens
      ensures rows == (if tableStuck then old(rows) else map[]) && dirty == rows.Keys
      ensures disk == map p | p in old(disk) && p in stuck :: old(disk)[p]
      ensures removed == |old(entries)| && freed == old(totalSize)
    {
      hide SafePoint, Traced, FilesInv, TimesInv, RowsInv, CountInv;
      removed := |entries|;
      freed := totalSize;
      entries := map[];
      totalSize, unkeyed := 0, 0;
      tableOpen := false;
      WipeFiles(tableStuck, turn);
      tableOpen := reopens;
      dirty := rows.Keys;
      NothingLeft(latest, disk, clock, rows);
    }

    // ----- Eviction -----

    /** sort.Slice on a listing of the entries; entries of the same age come in any order. */
    method SortOldestFirst(byAccess: bool) returns (order: seq<Key>)
      ensures OldestFirst(entries, order, byAccess) && KeySet(order) == entries.Keys
    {
      order := [];
      var rest := entries.Keys;
      while rest != {}
        invariant rest <= entries.Keys && KeySet(order) == entries.Keys - rest
        invariant OldestFirst(entries, order, byAccess)
        decreases rest
      {
        ThereIsAnOldest(entries, rest, byAccess);
        var key :| key in rest && forall j :: j in rest ==>
            Stamp(entries[key], byAccess) <= Stamp(entries[j], byAccess);
        NextOldest(entries, order, rest, key, byAccess);
        assert KeySet(order + [key]) == KeySet(order) + {key};
        order := order + [key];
        rest := rest - {key};
      }
    }

    /** Removes entries in order of age until the limit is met. */
    method EvictUntil(limit: int, byAccess: bool) returns (ghost victims: seq<Key>)
      requires Valid()
      modifies this`entries, this`totalSize, this`rows, this`disk, this`dirty, this`points
      ensures old(points) <= points
      ensures Tells(points, |old(points)|, latest, latest, None, moved)
      ensures Valid()
      ensures EvictionRun(old(entries), old(totalSize), limit, byAccess, victims)
      ensures entries == Without(old(entries), victims)
      ensures old(totalSize) <= limit ==> entries == old(entries)
      ensures Lacking() <= old(Lacking()) && (tableOpen ==> dirty <= old(dirty) + badRows)
      ensures TookAway(old(entries), old(Here()), entries, Here(), tableOpen, stuck, badRows)
    {
      hide Cache.Valid, OldestFirst, StoppedInTime, Stamp, TookAway, Tells, Without, Evicted;
      TellsNothing(points, latest, None, moved);
      TookNone(entries, Here(), tableOpen, stuck, badRows);
      if totalSize <= limit {
        NoVictims(entries, totalSize, limit, byAccess);
        return [];
      }
      var order := SortOldestFirst(byAccess);
      ghost var m, total := entries, totalSize;
      NoVictims(m, total, total, byAccess);
      assert order[..0] == [];
      var i := 0;
      while i < |order| && totalSize > limit
        invariant 0 <= i <= |order| && Valid() && totalSize + Evicted(m, order, i) == total
        invariant old(points) <= points
        invariant Tells(points, |old(points)|, latest, latest, None, moved)
        invariant entries == Without(m, order[..i])
        invariant TookAway(old(entries), old(Here()), entries, Here(), tableOpen, stuck, badRows)
        invariant Lacking() <= old(Lacking()) && (tableOpen ==> dirty <= old(dirty) + badRows)
        invariant forall n :: 0 <= n < i ==> total - Evicted(m, order, n) > limit
      {
        EvictOne(m, order, i, byAccess);
        ghost var mid, e1, d1 := points, entries, Here();
        RemoveLocked(order[i]);
        TellsOn(old(points), mid, points, latest, latest, None, moved);
        TookMore(old(entries), old(Here()), e1, d1, entries, Here(), tableOpen, stuck, badRows);
        i := i + 1;
      }
      RunEnds(m, total, limit, byAccess, order, i);
      return order[..i];
    }

    /** evictExpired. */
    method EvictExpired(now: int)
      requires Valid()
      modifies this`entries, this`totalSize, this`rows, this`disk, this`dirty, this`points
      ensures old(points) <= points
      ensures Tells(points, |old(points)|, latest, latest, None, moved)
      ensures Valid() && entries == old(entries) - ExpiredKeys(old(entries), now)
      ensures Lacking() <= old(Lacking()) && (tableOpen ==> dirty <= old(dirty) + badRows)
      ensures forall k :: k in entries <==>
                k in old(entries) && (old(entries)[k].expiresAt == 0 || now <= old(entries)[k].expiresAt)
      ensures TookAway(old(entries), old(Here()), entries, Here(), tableOpen, stuck, badRows)
    {
      hide Cache.Valid, TookAway;
      var _ := RemoveAll(ExpiredKeys(entries, now));
    }

    /** softEvictByAge. */
    method SoftEvictByAge() returns (ghost victims: seq<Key>)
      requires Valid()
      modifies this`entries, this`totalSize, this`rows, this`disk, this`dirty, this`points
      ensures old(points) <= points
      ensures Tells(points, |old(points)|, latest, latest, None, moved)
      ensures Valid() && entries == Without(old(entries), victims)
      ensures Lacking() <= old(Lacking()) && (tableOpen ==> dirty <= old(dirty) + badRows)
      ensures softLimit.Some? && maxSize > 0 ==>
                EvictionRun(old(entries), old(totalSize), softLimit.value, false, victims)
      ensures softLimit.None? || maxSize <= 0 ==> victims == [] && entries == old(entries)
      ensures TookAway(old(entries), old(Here()), entries, Here(), tableOpen, stuck, badRows)
    {
      hide Cache.Valid, EvictionRun, TookAway;
      if softLimit.None? || maxSize <= 0 {
        NoVictims(entries, 0, 0, false);
        TookNone(entries, Here(), tableOpen, stuck, badRows);
        return [];
      }
      victims := EvictUntil(softLimit.value, false);
    }

    /** evictLRU. */
    method EvictLRU() returns (ghost victims: seq<Key>)
      requires Valid()
      modifies this`entries, this`totalSize, this`rows, this`disk, this`dirty, this`points
      ensures old(points) <= points
      ensures Tells(points, |old(points)|, latest, latest, None, moved)
      ensures Valid() && entries == Without(old(entries), victims)
      ensures Lacking() <= old(Lacking()) && (tableOpen ==> dirty <= old(dirty) + badRows)
      ensures maxSize > 0 ==> EvictionRun(old(entries), old(totalSize), maxSize, true, victims)
      ensures maxSize <= 0 ==> victims == [] && entries == old(entries) && rows == old(rows) && disk == old(disk)
      ensures TookAway(old(entries), old(Here()), entries, Here(), tableOpen, stuck, badRows)
    {
      hide Cache.Valid, EvictionRun, TookAway;
      if maxSize <= 0 {
        NoVictims(entries, 0, 0, true);
        TookNone(entries, Here(), tableOpen, stuck, badRows);
        return [];
      }
      victims := EvictUntil(maxSize, true);
    }

    /** One tick of the background loop. Nothing that had expired when the tick began is left, and
        the size is within the soft and the hard limit unless nothing is left at all; the soft
        pass takes the oldest entries, the hard pass the least recently used. */
    method Tick(now: int) returns (ghost soft: seq<Key>, ghost hard: seq<Key>)
      requires Valid()
      modifies this`entries, this`totalSize, this`rows, this`disk, this`dirty, this`points
      ensures old(points) <= points
      ensures Tells(points, |old(points)|, latest, latest, None, moved)
      ensures Valid() && forall k :: k in entries ==> entries[k].expiresAt == 0 || now <= entries[k].expiresAt
      ensures Lacking() <= old(Lacking()) && (tableOpen ==> dirty <= old(dirty) + badRows)
      ensures entries == Without(Without(old(entries) - ExpiredKeys(old(entries), now), soft), hard)
      ensures maxSize > 0 ==> totalSize <= maxSize || entries == map[]
      ensures maxSize > 0 && softLimit.Some? ==> totalSize <= softLimit.value || entries == map[]
      ensures maxSize > 0 ==>
                Passes(old(entries) - ExpiredKeys(old(entries), now), unkeyed, softLimit, maxSize, soft, hard)
      ensures maxSize <= 0 ==> soft == hard == []
      ensures forall k, v :: k in entries && v in soft ==>
                v in old(entries) && old(entries)[v].createdAt <= entries[k].createdAt
      ensures forall k, v :: k in entries && v in hard ==>
                v in old(entries) && old(entries)[v].accessedAt <= entries[k].accessedAt
      ensures TookAway(old(entries), old(Here()), entries, Here(), tableOpen, stuck, badRows)
    {
      hide Cache.Valid, Without, Stamp, Passes, TookAway;
      ghost var m := entries;
      EvictExpired(now);
      ghost var m0, d0 := entries, Here();
      soft, hard := [], [];
      if maxSize > 0 {
        soft, hard := EvictOverLimits();
        TookMore(m, old(Here()), m0, d0, entries, Here(), tableOpen, stuck, badRows);
      } else {
        NoVictims(m0, 0, 0, false);
      }
      TickOutcome(m, now, m0, Without(m0, soft), entries, soft, hard);
    }

    /** The soft pass and then the hard pass. */
    method EvictOverLimits() returns (ghost soft: seq<Key>, ghost hard: seq<Key>)
      requires Valid() && maxSize > 0
      modifies this`entries, this`totalSize, this`rows, this`disk, this`dirty, this`points
      ensures old(points) <= points
      ensures Tells(points, |old(points)|, latest, latest, None, moved)
      ensures Valid() && entries == Without(Without(old(entries), soft), hard)
      ensures Lacking() <= old(Lacking()) && (tableOpen ==> dirty <= old(dirty) + badRows)
      ensures totalSize <= maxSize || entries == map[]
      ensures softLimit.Some? ==> totalSize <= softLimit.value || entries == map[]
      ensures Passes(old(entries), unkeyed, softLimit, maxSize, soft, hard)
      ensures forall k, v :: k in Without(old(entries), soft) && v in soft ==>
                v in old(entries) && Stamp(old(entries)[v], false) <= Stamp(old(entries)[k], false)
      ensures forall k, v :: k in entries && v in hard ==>
                v in Without(old(entries), soft) &&
                    Stamp(Without(old(entries), soft)[v], true) <= Stamp(Without(old(entries), soft)[k], true)
      ensures TookAway(old(entries), old(Here()), entries, Here(), tableOpen, stuck, badRows)
    {
      hide Cache.Valid, EvictionRun, Without, Stamp, TotalSize, TookAway;
      ghost var m0 := entries;
      Counted();
      soft := SoftEvictByAge();
      ghost var m1, d1 := entries, Here();
      Counted();
      PassOutcome(m0, unkeyed, if softLimit.Some? then softLimit.value else 0, false, soft, softLimit.Some?);
      hard := EvictLRU();
      Counted();
      PassOutcome(m1, unkeyed, maxSize, true, hard, true);
      EmptyStays(m1, hard);
      TookMore(m0, old(Here()), m1, d1, entries, Here(), tableOpen, stuck, badRows);
    }

    /** Every entry has a file of its own: removing one never takes another's. */
    lemma FilesAreDistinct(j: Key, k: Key)
      requires Valid() && j in entries && k in entries && j != k
      ensures entries[j].path in disk && entries[j].path != entries[k].path
    {
      hide SafePoint, Traced, CountInv, TimesInv, RowsInv;
      assert FileInv(j, entries[j], disk, latest) && FileInv(k, entries[k], disk, latest);
    }

    /** Every row but those whose last write failed belongs to an entry with the same path, size and
        expiry, and an access time no later than the entry's; and if no entry lacks its row, the
        table and the entries hold the same keys. */
    lemma RowsBelongToEntries()
      requires Valid()
      ensures forall k :: k in rows && k !in dirty ==>
                && k in entries
                && rows[k].path == entries[k].path && rows[k].size == entries[k].size
                && rows[k].createdAt == entries[k].createdAt && rows[k].expiresAt == entries[k].expiresAt
                && rows[k].accessedAt <= entries[k].accessedAt
      ensures dirty == {} && Lacking() == {} ==> rows.Keys == entries.Keys
    {
      hide SafePoint, Traced, CountInv, TimesInv, FilesInv;
      forall k | k in entries ensures k in Lacking() <==> k !in rows { }
      forall k | k in rows && k !in dirty ensures k in entries && RowMatches(rows[k], entries[k]) { }
    }

    /** What a restart between operations finds: every entry that has not expired and whose row is there
        and was written, with its bytes, its size and its expiry; and of the keys whose row was
        written nothing else. */
    lemma EntriesComeBack(now: int)
      requires Valid()
      ensures forall k | k in entries && k in rows && k !in dirty && !(0 != entries[k].expiresAt < now) ::
                && k in Recovered(Here(), now)
                && Recovered(Here(), now)[k] == entries[k].(accessedAt := rows[k].accessedAt)
      ensures forall k :: k in Recovered(Here(), now) && k !in dirty ==>
                k in entries && (entries[k].expiresAt == 0 || now <= entries[k].expiresAt)
    {
      hide SafePoint, Traced, CountInv, TimesInv;
      forall k | k in rows && k !in dirty ensures k in entries && RowMatches(rows[k], entries[k]) { }
      forall k | k in entries ensures FileInv(k, entries[k], disk, latest) { }
    }

    /** A cache that stores every key at one place has no moved key, whatever row writes fail. */
    lemma OnePlaceMeansNoneMoved()
      requires Valid() && forall k :: !(Final(k) in sites && Streams(k) in sites)
      ensures moved == {}
    {
      hide Traced, CountInv, TimesInv, FilesInv, RowsInv;
      assert SitesInv(rows, Told());
      assert forall k :: k in moved ==> Final(k) in sites && Streams(k) in sites;
    }

    lemma Counted()
      requires Valid()
      ensures totalSize == TotalSize(entries) + unkeyed
    {
    }

    // ----- Reading -----

    /** Get: a hit exactly if the key has an entry that has not expired; the file then holds the
        bytes last stored under the key. An expired entry is removed. */
    method Get(key: Key, now: int) returns (path: Option<Path>)
      requires Valid() && clock <= now
      modifies this`entries, this`totalSize, this`rows, this`disk, this`dirty, this`points, this`clock
      ensures old(points) <= points
      ensures Tells(points, |old(points)|, latest, latest, None, moved)
      ensures Valid() && clock == now
      ensures Lacking() <= old(Lacking()) && (tableOpen ==> dirty <= old(dirty) + badRows)
      ensures path.Some? <==>
                key in old(entries) && (old(entries)[key].expiresAt == 0 || now <= old(entries)[key].expiresAt)
      ensures path.Some? ==> path.value in disk && key in latest && disk[path.value] == latest[key] && disk == old(disk)
      ensures entries == if path.Some? then old(entries)[key := old(entries)[key].(accessedAt := now)]
                         else old(entries) - {key}
      ensures path.Some? ==>
                rows == if now - old(entries)[key].accessedAt > 60_000_000_000 && tableOpen && key !in badRows &&
                    key in old(rows)
                        then old(rows)[key := old(rows)[key].(accessedAt := now)] else old(rows)
      ensures path.None? ==> TookAway(old(entries), old(Here()), entries, Here(), tableOpen, stuck, badRows)
    {
      hide SafePoint, Traced, FilesInv, CountInv, TimesInv, RowsInv, TookAway;
      Advance(now);
      if key !in entries {
        assert entries - {key} == entries;
        TookNone(entries, Here(), tableOpen, stuck, badRows);
        return None;
      }
      var e := entries[key];
      if e.expiresAt != 0 && now > e.expiresAt {
        RemoveLocked(key);
        return None;
      }
      EntryTouched(entries, totalSize, unkeyed, rows, dirty, disk, latest, now, key);
      entries := entries[key := e.(accessedAt := now)];
      if now - e.accessedAt > MINUTE && tableOpen && key !in badRows && key in rows {
        TouchRow(key, now);
      }
      return Some(e.path);
    }

    /** Time passes between operations and within them. */
    method Advance(now: int)
      requires Valid() && clock <= now
      modifies this`clock
      ensures Valid() && clock == now
    {
      hide SafePoint, Traced, FilesInv, CountInv, TimesInv, RowsInv;
      LaterClock(entries, clock, now);
      ClockAdvances(points, Here(), whole, Told(), clock, now);
      clock := now;
    }

    /** UPDATE ... SET accessed_at. */
    method TouchRow(key: Key, now: int)
      requires Traced(points, Here(), whole, clock) && SafePoint(Here(), Told()) && key in rows && now == clock
      modifies this`rows, this`points
      ensures old(points) <= points
      ensures Tells(points, |old(points)|, latest, latest, None, moved)
      ensures Traced(points, Here(), whole, clock) && SafePoint(Here(), Told())
      ensures rows == old(rows)[key := old(rows)[key].(accessedAt := now)]
    {
      hide SafePoint, Traced;
      ghost var before := Here();
      RowTouchKeepsSafety(before, Told(), key, now);
      rows := rows[key := rows[key].(accessedAt := now)];
      Mark(before, Told(), SetRow(key, rows[key]));
    }

    // ----- Storing -----

    /** Writes data to a new temporary file, piece by piece, and renames it into place. On any
        fault the temporary file is removed. Every state on the way is a safe place to stop. */
    method WriteFile(key: Key, path: Path, tmp: Path, data: Bytes, fault: WriteFault) returns (ok: bool)
      requires Traced(points, Here(), whole, clock) && SafePoint(Here(), Told()) && OwnPath(path, key)
      requires (tmp.Temp? || tmp.StreamTemp?) && tmp !in disk
      modifies this`disk, this`points, this`whole, this`sites
      ensures old(points) <= points
      ensures Tells(points, |old(points)|, old(latest), latest, Some((key, data)), old(moved) + moved)
      ensures whole == old(whole) + if ok then {(key, data)} else {}
      ensures sites == old(sites) + if ok then {path} else {}
      ensures Traced(points, Here(), whole, clock) && (ok <==> fault == NoFault)
      ensures ok ==> disk == old(disk)[path := data] && SafePoint(Here(), Storing(key, data))
      ensures !ok ==> SafePoint(Here(), Told()) && disk - {tmp} == old(disk) && (tmp in disk ==> tmp in stuck)
    {
      hide SafePoint, Traced;
      assert disk - {tmp} == disk;
      if fault == NoDirectory || fault == NoTemp {
        return false;
      }
      WriteTemp(tmp, data, if fault.CopyFails? && fault.after < |data| then fault.after else |data|);
      if fault != NoFault {
        RemoveFile(tmp, Told());
        assert disk - {tmp} == old(disk);
        return false;
      }
      assert data[..|data|] == data;
      RenameFile(key, path, tmp, data);
      assert disk == old(disk)[path := data];
      return true;
    }

    /** os.Rename of the finished file; from here on the store may be found by a restart. */
    method RenameFile(key: Key, path: Path, tmp: Path, data: Bytes)
      requires Traced(points, Here(), whole, clock) && SafePoint(Here(), Told()) && OwnPath(path, key)
      requires (tmp.Temp? || tmp.StreamTemp?) && tmp in disk && disk[tmp] == data
      modifies this`disk, this`points, this`whole, this`sites
      ensures old(points) <= points
      ensures Tells(points, |old(points)|, old(latest), latest, Some((key, data)), moved)
      ensures whole == old(whole) + {(key, data)} && sites == old(sites) + {path}
      ensures Traced(points, Here(), whole, clock) && SafePoint(Here(), Storing(key, data))
      ensures disk == old(disk)[path := data] - {tmp}
    {
      hide SafePoint, Traced;
      ghost var before := Here();
      BusyKeepsSafety(before, Told(), key, data, path);
      WholeGrows(points, before, whole, clock, key, data);
      whole, sites := whole + {(key, data)}, sites + {path};
      RenameKeepsSafety(before, Storing(key, data), key, tmp, path, data);
      disk := disk[path := data] - {tmp};
      Mark(before, Storing(key, data), Rename(tmp, path));
    }

    /** os.CreateTemp. */
    method CreateTemp(tmp: Path)
      requires Traced(points, Here(), whole, clock) && SafePoint(Here(), Told()) && (tmp.Temp? || tmp.StreamTemp?)
      modifies this`disk, this`points
      ensures old(points) <= points
      ensures Tells(points, |old(points)|, latest, latest, None, moved)
      ensures Traced(points, Here(), whole, clock) && SafePoint(Here(), Told()) && disk == old(disk)[tmp := ""]
    {
      hide SafePoint, Traced;
      FileChangeKeepsSafety(Here(), Told(), tmp, "");
      ghost var before := Here();
      disk := disk[tmp := ""];
      Mark(before, Told(), Write(tmp, ""));
    }

    /** io.Copy to the new file, which grows; after any piece the process may stop. */
    method WriteTemp(tmp: Path, data: Bytes, copied: nat)
      requires Traced(points, Here(), whole, clock) && SafePoint(Here(), Told()) && (tmp.Temp? || tmp.StreamTemp?)
      requires copied <= |data|
      modifies this`disk, this`points
      ensures old(points) <= points
      ensures Tells(points, |old(points)|, latest, latest, None, moved)
      ensures Traced(points, Here(), whole, clock) && SafePoint(Here(), Told()) &&
                disk == old(disk)[tmp := data[..copied]]
    {
      hide SafePoint, Traced;
      CreateTemp(tmp);
      var i := 0;
      while i < copied
        invariant 0 <= i <= copied && Traced(points, Here(), whole, clock) && SafePoint(Here(), Told())
        invariant old(points) <= points
        invariant Tells(points, |old(points)|, latest, latest, None, moved)
        invariant disk == old(disk)[tmp := data[..i]]
      {
        i := i + 1;
        FileChangeKeepsSafety(Here(), Told(), tmp, data[..i]);
        ghost var before := Here();
        disk := disk[tmp := data[..i]];
        Mark(before, Told(), Write(tmp, data[..i]));
      }
    }

    /** The history while a store of `data` under `key` is in progress. */
    ghost function Storing(key: Key, data: Bytes): History
      reads this
    {
      History(latest, Some((key, data)), moved, clock, sites)
    }

    /** The entry and its row, once the file is in place; this finishes the store. */
    method Register(key: Key, path: Path, data: Bytes, expiresAt: int, now: int)
      requires Traced(points, Here(), whole, clock) && SafePoint(Here(), Storing(key, data))
      requires CountInv(entries, totalSize, unkeyed) && RowsInv(rows, entries, dirty) && TimesInv(entries, clock)
      requires OthersInv(entries, disk, latest, key) && OwnPath(path, key) && path in disk && disk[path] == data
      requires path in sites && clock <= now
      modifies this`entries, this`totalSize, this`rows, this`latest, this`clock, this`dirty, this`moved, this`points
      ensures old(points) <= points
      ensures Tells(points, |old(points)|, old(latest), latest, Some((key, data)), old(moved) + moved)
      ensures Valid() && clock == now && latest == old(latest)[key := data]
      ensures entries == old(entries)[key := Record(path, |data|, now, now, expiresAt)]
      ensures rows == if tableOpen && key !in badRows then old(rows)[key := entries[key]] else old(rows)
      ensures tableOpen && key !in badRows ==> key !in dirty && key !in Lacking()
      ensures Lacking() <= old(Lacking()) + {key} && (tableOpen ==> dirty <= old(dirty) + badRows)
      ensures moved == MovedAfter(old(moved), old(rows), key, path, tableOpen && key !in badRows)
    {
      hide SafePoint, Traced, FilesInv, CountInv, TimesInv, RowsInv, OthersInv, TotalSize, Tells, MovedAfter;
      var e := Record(path, |data|, now, now, expiresAt);
      LaterClock(entries, clock, now);
      ClockAdvances(points, Here(), whole, Storing(key, data), clock, now);
      clock := now;
      InsertEntry(key, e, data);
      FinishStore(key, e, data);
    }

    /** The new entry replaces an old one of the same key. */
    method InsertEntry(key: Key, e: Record, ghost data: Bytes)
      requires CountInv(entries, totalSize, unkeyed) && RowsInv(rows, entries, dirty) && TimesInv(entries, clock)
      requires OthersInv(entries, disk, latest, key) && OwnPath(e.path, key) && e.path in disk && disk[e.path] == data
      requires e.size == |data| && e.createdAt == e.accessedAt == clock
      modifies this`entries, this`totalSize
      ensures entries == old(entries)[key := e]
      ensures CountInv(entries, totalSize, unkeyed) && TimesInv(entries, clock)
      ensures FilesInv(entries, disk, latest[key := data])
      ensures RowsInv(rows[key := e], entries, dirty - {key}) && RowsInv(rows, entries, dirty + {key})
    {
      hide FilesInv, CountInv, TimesInv, RowsInv, OthersInv;
      EntryComes(entries, totalSize, unkeyed, rows, dirty, clock, key, e);
      RegisteredFiles(entries, disk, latest, key, e, data);
      if key in entries {
        totalSize := totalSize - entries[key].size;
      }
      entries := entries[key := e];
      totalSize := totalSize + e.size;
    }

    /** The row, and then the store counts as finished. */
    method FinishStore(key: Key, e: Record, ghost data: Bytes)
      requires Traced(points, Here(), whole, clock) && SafePoint(Here(), Storing(key, data))
      requires OwnPath(e.path, key) && e.path in disk && disk[e.path] == data
      requires e.path in sites && e.createdAt <= e.accessedAt <= clock
      modifies this`rows, this`latest, this`dirty, this`moved, this`points
      ensures old(points) <= points
      ensures Tells(points, |old(points)|, old(latest), latest, Some((key, data)), old(moved) + moved)
      ensures Traced(points, Here(), whole, clock) && SafePoint(Here(), Told()) && latest == old(latest)[key := data]
      ensures rows == (if tableOpen && key !in badRows then old(rows)[key := e] else old(rows))
      ensures dirty == (if tableOpen && key !in badRows then old(dirty) - {key} else old(dirty) + {key})
      ensures moved == MovedAfter(old(moved), old(rows), key, e.path, tableOpen && key !in badRows)
    {
      hide SafePoint, Traced;
      UpsertRow(key, e, data);
      latest := latest[key := data];
      MarkSame(Told());
    }

    /** INSERT OR REPLACE, after which the store may be called finished. */
    method UpsertRow(key: Key, e: Record, ghost data: Bytes)
      requires Traced(points, Here(), whole, clock) && SafePoint(Here(), Storing(key, data))
      requires OwnPath(e.path, key) && e.path in disk && disk[e.path] == data
      requires e.path in sites && e.createdAt <= e.accessedAt <= clock
      modifies this`rows, this`dirty, this`moved, this`points
      ensures old(points) <= points
      ensures Tells(points, |old(points)|, latest, latest, Some((key, data)), old(moved) + moved)
      ensures Traced(points, Here(), whole, clock) && SafePoint(Here(), Told().(latest := latest[key := data]))
      ensures rows == (if tableOpen && key !in badRows then old(rows)[key := e] else old(rows))
      ensures dirty == (if tableOpen && key !in badRows then old(dirty) - {key} else old(dirty) + {key})
      ensures moved == MovedAfter(old(moved), old(rows), key, e.path, tableOpen && key !in badRows)
    {
      hide SafePoint, Traced;
      RowWriteKeepsSafety(Here(), Storing(key, data), key, e, data, tableOpen && key !in badRows);
      ghost var before := Here();
      if tableOpen && key !in badRows {
        rows := rows[key := e];
        dirty, moved := dirty - {key}, MovedAfter(moved, old(rows), key, e.path, true);
        Mark(before, Storing(key, data), SetRow(key, e));
      } else {
        moved := MovedAfter(moved, rows, key, e.path, false);
        dirty := dirty + {key};
      }
    }

    /** Registration, then inline LRU eviction. */
    method Finish(key: Key, path: Path, data: Bytes, expiresAt: int, now: int) returns (ghost victims: seq<Key>)
      requires Traced(points, Here(), whole, clock) && SafePoint(Here(), Storing(key, data))
      requires CountInv(entries, totalSize, unkeyed) && RowsInv(rows, entries, dirty) && TimesInv(entries, clock)
      requires OthersInv(entries, disk, latest, key) && OwnPath(path, key) && path in disk && disk[path] == data
      requires path in sites && clock <= now
      modifies this`entries, this`totalSize, this`rows, this`disk, this`latest, this`clock, this`dirty, this`moved,
                this`points
      ensures old(points) <= points
      ensures Tells(points, |old(points)|, old(latest), latest, Some((key, data)), old(moved) + moved)
      ensures Valid() && clock == now && latest == old(latest)[key := data]
      ensures Stores(old(entries), entries, key, Record(path, |data|, now, now, expiresAt), unkeyed, maxSize, victims)
      ensures tableOpen ==> dirty <= old(dirty) + badRows
      ensures Lacking() <= old(Lacking()) + {key}
      ensures tableOpen && key !in badRows ==> key !in dirty && key !in Lacking()
      ensures moved == MovedAfter(old(moved), old(rows), key, path, tableOpen && key !in badRows)
      ensures maxSize <= 0 ==>
                && disk == old(disk) && key in entries
                && rows == if tableOpen && key !in badRows then old(rows)[key := entries[key]] else old(rows)
      ensures TookAway(old(entries)[key := Record(path, |data|, now, now, expiresAt)],
                       Durable(old(disk), Upserted(old(rows), key, Record(path, |data|, now, now, expiresAt),
                                                   tableOpen && key !in badRows)),
                       entries, Here(), tableOpen, stuck, badRows)
    {
      hide SafePoint, Traced, FilesInv, CountInv, TimesInv, RowsInv, EvictionRun, OthersInv, TotalSize, Without,
          TookAway;
      Register(key, path, data, expiresAt, now);
      Counted();
      victims := EvictLRU();
    }

    /** Put: on a fault nothing is stored; otherwise the key maps to the whole data at its final
        path, unless eviction takes it at once. With a limit, a key strictly newer than all others
        is there afterwards exactly if it fits beside the unkeyed bytes, and otherwise nothing is. */
    method Put(key: Key, data: Bytes, tmp: Path, ttl: int, now: int, fault: WriteFault)
      returns (path: Option<Path>, ghost victims: seq<Key>)
      requires Valid() && clock <= now && tmp.Temp? && tmp !in disk
      modifies this`entries, this`totalSize, this`rows, this`disk, this`latest, this`clock, this`dirty, this`moved,
                this`points, this`whole, this`sites
      ensures old(points) <= points
      ensures Tells(points, |old(points)|, old(latest), latest, Some((key, data)), old(moved) + moved)
      ensures Valid() && (path == if fault == NoFault then Some(Final(key)) else None)
      ensures Lacking() <= old(Lacking()) + {key} && (tableOpen ==> dirty <= old(dirty) + badRows)
      ensures fault != NoFault ==>
                && entries == old(entries) && totalSize == old(totalSize) && rows == old(rows) && latest == old(latest)
                && disk - {tmp} == old(disk) && (tmp in disk ==> tmp in stuck)
                && moved == old(moved) && whole == old(whole) && sites == old(sites)
      ensures fault == NoFault && tableOpen && key !in badRows ==> key !in dirty && key !in Lacking()
      ensures fault == NoFault ==>
                && clock == now && latest == old(latest)[key := data] && whole == old(whole) + {(key, data)}
                && moved == MovedAfter(old(moved), old(rows), key, Final(key), tableOpen && key !in badRows)
                && sites == old(sites) + {Final(key)}
                && Stores(old(entries), entries, key, Record(Final(key), |data|, now, now, Expiry(now, ttl, this.ttl)),
                     unkeyed, maxSize, victims)
      ensures fault == NoFault && maxSize <= 0 ==>
                && disk == old(disk)[Final(key) := data] && key in entries
                && rows == if tableOpen && key !in badRows then old(rows)[key := entries[key]] else old(rows)
      ensures fault == NoFault && maxSize > 0 &&
                (forall k :: k in old(entries) && k != key ==> old(entries)[k].accessedAt < now) ==>
                && (key in entries <==> |data| + unkeyed <= maxSize)
                && (key !in entries ==> entries == map[])
      ensures fault == NoFault ==>
                TookAway(old(entries)[key := Record(Final(key), |data|, now, now, Expiry(now, ttl, this.ttl))],
                         Durable(old(disk)[Final(key) := data],
                                 Upserted(old(rows), key,
                                          Record(Final(key), |data|, now, now, Expiry(now, ttl, this.ttl)),
                                          tableOpen && key !in badRows)),
                         entries, Here(), tableOpen, stuck, badRows)
      ensures fault == NoFault && key in entries ==>
                entries[key].expiresAt ==
                if ttl > 0 then now + ttl else if ttl == 0 && this.ttl > 0 then now + this.ttl else 0
    {
      hide SafePoint, Traced, FilesInv, CountInv, TimesInv, RowsInv, OthersInv, Stores, TookAway;
      path, victims := None, [];
      var ok := WriteFile(key, Final(key), tmp, data, fault);
      if !ok {
        OrphanKeepsFiles(entries, old(disk), disk, latest, tmp);
        return;
      }
      OthersStay(entries, old(disk), latest, key, Final(key), data);
      victims := Finish(key, Final(key), data, Expiry(now, ttl, this.ttl), now);
      NewestSurvives(old(entries), entries, key, Record(Final(key), |data|, now, now, Expiry(now, ttl, this.ttl)),
          unkeyed, maxSize, victims);
      StoredEntry(old(entries), entries, key, Record(Final(key), |data|, now, now, Expiry(now, ttl, this.ttl)),
          unkeyed, maxSize, victims);
      path := Some(Final(key));
    }

    /** Streaming: the caller writes the file itself and registers it with RegisterAfterStream. */
    method Stream(key: Key, path: Path, data: Bytes, tmp: Path, now: int, fault: WriteFault)
      returns (ghost victims: seq<Key>)
      requires Valid() && clock <= now && OwnPath(path, key) && (tmp.Temp? || tmp.StreamTemp?) && tmp !in disk
      modifies this`entries, this`totalSize, this`rows, this`disk, this`latest, this`clock, this`dirty, this`moved,
                this`points, this`whole, this`sites
      ensures old(points) <= points
      ensures Tells(points, |old(points)|, old(latest), latest, Some((key, data)), old(moved) + moved)
      ensures Valid() && Lacking() <= old(Lacking()) + {key} && (tableOpen ==> dirty <= old(dirty) + badRows)
      ensures fault != NoFault ==>
                && entries == old(entries) && totalSize == old(totalSize) && rows == old(rows) && latest == old(latest)
                && disk - {tmp} == old(disk) && (tmp in disk ==> tmp in stuck)
                && moved == old(moved) && whole == old(whole) && sites == old(sites)
      ensures fault == NoFault && tableOpen && key !in badRows ==> key !in dirty && key !in Lacking()
      ensures fault == NoFault ==>
                && clock == now && latest == old(latest)[key := data] && whole == old(whole) + {(key, data)}
                && moved == MovedAfter(old(moved), old(rows), key, path, tableOpen && key !in badRows)
                && sites == old(sites) + {path}
                && Stores(old(entries), entries, key, Record(path, |data|, now, now, Expiry(now, 0, this.ttl)), unkeyed,
                     maxSize, victims)
      ensures fault == NoFault && maxSize <= 0 ==>
                && disk == old(disk)[path := data] && key in entries
                && rows == if tableOpen && key !in badRows then old(rows)[key := entries[key]] else old(rows)
      ensures fault == NoFault ==>
                TookAway(old(entries)[key := Record(path, |data|, now, now, Expiry(now, 0, this.ttl))],
                         Durable(old(disk)[path := data],
                                 Upserted(old(rows), key, Record(path, |data|, now, now, Expiry(now, 0, this.ttl)),
                                          tableOpen && key !in badRows)),
                         entries, Here(), tableOpen, stuck, badRows)
      ensures fault == NoFault && key in entries ==>
                entries[key].expiresAt == if this.ttl > 0 then now + this.ttl else 0
    {
      hide SafePoint, Traced, FilesInv, CountInv, TimesInv, RowsInv, OthersInv, Stores, TookAway;
      victims := [];
      var ok := WriteFile(key, path, tmp, data, fault);
      if !ok {
        OrphanKeepsFiles(entries, old(disk), disk, latest, tmp);
        return;
      }
      OthersStay(entries, old(disk), latest, key, path, data);
      victims := Finish(key, path, data, Expiry(now, 0, this.ttl), now);
      StoredEntry(old(entries), entries, key, Record(path, |data|, now, now, Expiry(now, 0, this.ttl)), unkeyed,
          maxSize, victims);
    }

    /** Stop closes the table; later changes no longer reach the rows. */
    method Stop()
      requires Valid()
      modifies this`tableOpen
      ensures Valid() && !tableOpen
    {
      hide SafePoint, Traced, FilesInv, CountInv, TimesInv, RowsInv;
      tableOpen := false;
    }

    // ----- Starting -----

    /** The rows in any order: an expired row loses its file, a row without a file is stale, and
        every other row becomes an entry with the size its file really has. */
    method ReadRows(d: Durable, now: int, ghost h: History) returns (stale: set<Key>)
      requires Traced(points, Here(), whole, clock) && SafePoint(d, h) && h.clock <= clock
      requires disk == d.disk && rows == d.rows && entries == map[] && totalSize == 0
      modifies this`entries, this`totalSize, this`disk, this`points
      ensures old(points) <= points
      ensures Tells(points, |old(points)|, h.latest, h.latest, h.busy, h.moved)
      ensures Traced(points, Here(), whole, clock) && SafePoint(Here(), h)
      ensures entries == Recovered(d, now) && totalSize == TotalSize(entries)
      ensures stale == d.rows.Keys - entries.Keys && disk == d.disk - Gone(d, d.rows.Keys, now, stuck)
    {
      hide SafePoint, Traced, Recovered, Gone, TotalSize;
      stale := {};
      var rest := d.rows.Keys;
      NoRowsRead(d, now, stuck);
      assert d.rows.Keys - rest == {} && d.disk - {} == d.disk;
      while rest != {}
        invariant rest <= d.rows.Keys && rows == d.rows && Traced(points, Here(), whole, clock) && SafePoint(Here(), h)
        invariant old(points) <= points
        invariant Tells(points, |old(points)|, h.latest, h.latest, h.busy, h.moved)
        invariant entries == Recovered(d, now) - rest && totalSize == TotalSize(entries)
        invariant stale == d.rows.Keys - rest - Recovered(d, now).Keys
        invariant disk == d.disk - Gone(d, d.rows.Keys - rest, now, stuck)
        decreases rest
      {
        var key :| key in rest;
        OneMoreRead(Recovered(d, now), d.rows.Keys, rest, key);
        var isStale := ReadRow(d, key, now, d.rows.Keys - rest, h);
        rest := rest - {key};
        if isStale {
          stale := stale + {key};
        }
      }
      assert d.rows.Keys - rest == d.rows.Keys && entries == Recovered(d, now);
    }

    method ReadRow(d: Durable, key: Key, now: int, ghost before: set<Key>, ghost h: History) returns (isStale: bool)
      requires Traced(points, Here(), whole, clock) && SafePoint(Here(), h) && h.clock <= clock
      requires SafePoint(d, h) && rows == d.rows
      requires key in d.rows && key !in before && key !in entries && totalSize == TotalSize(entries)
      requires disk == d.disk - Gone(d, before, now, stuck)
      modifies this`entries, this`totalSize, this`disk, this`points
      ensures old(points) <= points
      ensures Tells(points, |old(points)|, h.latest, h.latest, h.busy, h.moved)
      ensures Traced(points, Here(), whole, clock) && SafePoint(Here(), h)
      ensures isStale <==> key !in Recovered(d, now)
      ensures entries == if isStale then old(entries) else old(entries)[key := Recovered(d, now)[key]]
      ensures totalSize == TotalSize(entries) && disk == d.disk - Gone(d, before + {key}, now, stuck)
    {
      hide SafePoint, Traced, Recovered, Gone, TotalSize, Expired;
      var row := rows[key];
      RowRead(d, h, now, before, key, stuck);
      TotalInsert(entries, key, row.(size := if row.path in disk then |disk[row.path]| else 0));
      if Expired(row, now) {
        RemoveFile(row.path, h);
        return true;
      }
      if row.path !in disk {
        return true;
      }
      assert entries - {key} == entries;
      entries := entries[key := row.(size := |disk[row.path]|)];
      totalSize := totalSize + |disk[row.path]|;
      return false;
    }

    method DeleteRows(stale: set<Key>, ghost h: History)
      requires Traced(points, Here(), whole, clock) && SafePoint(Here(), h) && h.clock <= clock
      modifies this`rows, this`dirty, this`points
      ensures old(points) <= points
      ensures Tells(points, |old(points)|, h.latest, h.latest, h.busy, h.moved)
      ensures Traced(points, Here(), whole, clock) && SafePoint(Here(), h)
      ensures rows == if tableOpen then RowsLeft(old(rows), stale, badRows) else old(rows)
    {
      hide SafePoint, Traced, RowsLeft;
      var rest := stale;
      NothingGone(map[], rows, badRows, stale);
      while rest != {}
        invariant rest <= stale && Traced(points, Here(), whole, clock) && SafePoint(Here(), h)
        invariant old(points) <= points
        invariant Tells(points, |old(points)|, h.latest, h.latest, h.busy, h.moved)
        invariant rows == if tableOpen then RowsLeft(old(rows), stale - rest, badRows) else old(rows)
        decreases rest
      {
        var key :| key in rest;
        DeleteRow(key, h);
        RowGoes(old(rows), stale - rest, badRows, key);
        assert stale - (rest - {key}) == stale - rest + {key};
        rest := rest - {key};
      }
      assert stale - rest == stale;
    }

    /** The first level of subdirectories: temporary files are deleted, and what no row names is
        counted. */
    method ScanFiles(known: set<Path>, ghost h: History)
      requires Traced(points, Here(), whole, clock) && SafePoint(Here(), h) && h.clock <= clock
      modifies this`totalSize, this`unkeyed, this`disk, this`points
      ensures old(points) <= points
      ensures Tells(points, |old(points)|, h.latest, h.latest, h.busy, h.moved)
      ensures Traced(points, Here(), whole, clock) && SafePoint(Here(), h)
      ensures disk == old(disk) - (Temps(old(disk)) - stuck)
      ensures totalSize == old(totalSize) + FileBytes(disk, Unknown(disk, known))
      ensures unkeyed == old(unkeyed) + FileBytes(disk, Unknown(disk, known))
    {
      hide SafePoint, Traced, FileBytes, Unknown, Temps;
      ghost var d0, total, extra := disk, totalSize, unkeyed;
      var rest := disk.Keys;
      NothingScanned(d0, known);
      while rest != {}
        invariant rest <= d0.Keys && Traced(points, Here(), whole, clock) && SafePoint(Here(), h)
        invariant old(points) <= points
        invariant Tells(points, |old(points)|, h.latest, h.latest, h.busy, h.moved)
        invariant disk == d0 - (Temps(d0) - rest - stuck)
        invariant totalSize == total + FileBytes(d0, Unknown(d0, known) - rest)
        invariant unkeyed == extra + FileBytes(d0, Unknown(d0, known) - rest)
        decreases rest
      {
        var p :| p in rest;
        FileScanned(d0, known, rest, p, stuck);
        rest := rest - {p};
        if p.Temp? {
          RemoveFile(p, h);
        } else if (p.Final? || p.Legacy?) && p !in known {
          totalSize := totalSize + |disk[p]|;
          unkeyed := unkeyed + |disk[p]|;
        }
      }
      ScanCounts(d0, known, stuck);
      assert Unknown(d0, known) - rest == Unknown(d0, known) && Temps(d0) - rest == Temps(d0);
    }

    /** The rows, if the table is open. */
    method RecoverRows(d: Durable, now: int, ghost h: History)
      requires Traced(points, Here(), whole, clock) && SafePoint(d, h) && h.clock <= clock
      requires disk == d.disk && rows == d.rows && entries == map[] && totalSize == 0
      modifies this`entries, this`totalSize, this`rows, this`disk, this`dirty, this`points
      ensures old(points) <= points
      ensures Tells(points, |old(points)|, h.latest, h.latest, h.busy, h.moved)
      ensures Traced(points, Here(), whole, clock) && SafePoint(Here(), h)
      ensures entries == (if tableOpen then Recovered(d, now) else map[]) && totalSize == TotalSize(entries)
      ensures disk == if tableOpen then d.disk - Gone(d, d.rows.Keys, now, stuck) else d.disk
      ensures rows == if tableOpen then RowsLeft(d.rows, d.rows.Keys - entries.Keys, badRows) else d.rows
    {
      hide SafePoint, Traced, Tells, Recovered, Gone, TotalSize;
      TellsNothing(points, h.latest, h.busy, h.moved);
      if tableOpen {
        var stale := ReadRows(d, now, h);
        ghost var mid := points;
        DeleteRows(stale, h);
        TellsOn(old(points), mid, points, h.latest, h.latest, h.busy, h.moved);
      } else {
        NothingIsEmpty();
      }
    }

    /** What a start makes of the durable state it finds: the entries are the rows that have not
        expired and have their file, with real sizes; every file they or other rows name is whole,
        and the last one stored unless the row was left behind; the counter adds the scanned files
        that no entry names; temporary files and rows without an entry go, as far as they can be
        removed; rows and entries are in step but for the sizes a stop left wrong. When all
        entries came from Put the counter is the size of all finished files there. */
    ghost predicate Restored(d: Durable, streamDirs: nat, now: int, h: History)
      reads this
    {
      && entries == (if tableOpen then Recovered(d, now) else map[])
      && LatestKnown(entries, latest, whole, h) && moved == {} && sites == PathsOf(rows)
      && unkeyed ==
         streamDirs +
         FileBytes(disk, set p | p in disk && (p.Final? || p.Legacy?) && forall k :: k in entries ==>
             entries[k].path != p)
      && CountsAllFiles(entries, disk, totalSize - streamDirs)
      && FilesKept(disk, d, now, tableOpen, stuck)
      && (tableOpen ==> RowsKept(rows, entries, d.rows, dirty, badRows) && Lacking() == {})
    }

    /** recover: reads the rows, deletes the stale ones, cleans temporary files out of the first level
        of subdirectories, and counts the bytes there that no row names. */
    method Recover(d: Durable, streamDirs: nat, now: int, ghost h: History)
      requires Traced(points, Here(), whole, clock) && SafePoint(d, h) && WholeFiles(d.disk, whole)
      requires h.clock <= now == clock
      requires disk == d.disk && rows == d.rows && entries == map[] && totalSize == 0 && unkeyed == 0
      modifies this`entries, this`totalSize, this`rows, this`disk, this`unkeyed, this`latest, this`dirty,
                this`moved, this`sites, this`points
      ensures old(points) <= points
      ensures Tells(points, |old(points)|, h.latest, latest, h.busy, h.moved)
      ensures Valid() && Restored(d, streamDirs, now, h)
    {
      hide SafePoint, Traced, FilesInv, RowsInv, TimesInv, Recovered, Unknown, FileBytes, Gone, Temps, WholeFiles,
          Contents;
      hide TotalSize, PathsOf, Tells, OutOfStep, RowsKept, LatestKnown, FilesKept, CountsAllFiles, Cache.Restored,
          Cache.Valid;
      RecoverRows(d, now, h);
      ghost var mid := points;
      ScanFiles(PathsOf(entries), h);
      TellsOn(old(points), mid, points, h.latest, h.latest, h.busy, h.moved);
      mid := points;
      assert Cleaned(d, now, Here(), tableOpen, stuck, badRows, entries);
      StartIsValid(d, h, now, Here(), tableOpen, stuck, badRows, entries, whole);
      RecoveryConservesBytes(entries, disk, Contents(rows, disk));
      Settle(streamDirs);
      TellsEnd(old(points), mid, points, h, Told());
      IsRestored(d, streamDirs, now, h);
    }

    /** The end of recovery: the directories under `streams` are added to the count. */
    method Settle(streamDirs: nat)
      requires Traced(points, Here(), whole, clock)
      requires SafePoint(Here(), History(Contents(rows, disk), None, {}, clock, PathsOf(rows)))
      requires FilesInv(entries, disk, Contents(rows, disk)) && RowsInv(rows, entries, OutOfStep(rows, entries))
      requires TimesInv(entries, clock) && totalSize == TotalSize(entries) + unkeyed
      modifies this`totalSize, this`unkeyed, this`latest, this`dirty, this`moved, this`sites, this`points
      ensures old(points) <= points
      ensures forall i :: |old(points)| <= i < |points| ==> points[i].history == Told()
      ensures Valid() && latest == Contents(rows, disk) && dirty == OutOfStep(rows, entries)
      ensures moved == {} && sites == PathsOf(rows)
      ensures unkeyed == old(unkeyed) + streamDirs && totalSize == old(totalSize) + streamDirs
    {
      hide SafePoint, Traced, FilesInv, TimesInv, RowsInv, TotalSize, Contents, OutOfStep, Tells, PathsOf;
      totalSize, unkeyed := totalSize + streamDirs, unkeyed + streamDirs;
      latest, sites := Contents(rows, disk), PathsOf(rows);
      dirty, moved := OutOfStep(rows, entries), {};
      MarkSame(Told());
    }

    lemma IsRestored(d: Durable, streamDirs: nat, now: int, h: History)
      requires entries == if tableOpen then Recovered(d, now) else map[]
      requires latest == Contents(rows, disk) && dirty == OutOfStep(rows, entries) && moved == {} &&
                sites == PathsOf(rows)
      requires tableOpen ==> Lacking() == {}
      requires LatestKnown(entries, latest, whole, h) && FilesKept(disk, d, now, tableOpen, stuck)
      requires tableOpen ==> RowsKept(rows, entries, d.rows, dirty, badRows)
      requires unkeyed == FileBytes(disk, Unknown(disk, PathsOf(entries))) + streamDirs &&
                totalSize == TotalSize(entries) + unkeyed
      requires CountsAllFiles(entries, disk, TotalSize(entries) + FileBytes(disk, Unknown(disk, PathsOf(entries))))
      ensures Restored(d, streamDirs, now, h)
    {
      hide Recovered, FileBytes, Contents, OutOfStep, TotalSize, RowsKept, LatestKnown, FilesKept, CountsAllFiles;
      assert Unknown(disk, PathsOf(entries)) ==
             set p | p in disk && (p.Final? || p.Legacy?) && forall k :: k in entries ==> entries[k].path != p;
    }

    /** New on a directory with these files and rows. `opens` says whether the table can be opened
        and read, `streamDirs` what the directories under `streams` are reported to take. The clock
        has not gone back. A stop while starting leaves the files and rows safe in turn. */
    constructor (maxSize: int, ttl: int, softLimit: Option<int>, d: Durable, opens: bool, streamDirs: nat,
                 stuck: set<Path>, badRows: set<Key>, now: int, ghost h: History, ghost whole: set<(Key, Bytes)>)
      requires SafePoint(d, h) && h.clock <= now && WholeFiles(d.disk, whole)
      ensures Tells(points, 0, h.latest, latest, h.busy, h.moved)
      ensures Valid() && clock == now && tableOpen == opens && Restored(d, streamDirs, now, h)
      ensures this.maxSize == maxSize && this.ttl == ttl && this.softLimit == softLimit
      ensures this.stuck == stuck && this.badRows == badRows && this.whole == whole
    {
      hide Cache.Valid, Cache.Restored, SafePoint, Traced, TimesInv, WholeFiles, Tells;
      this.maxSize, this.ttl, this.softLimit := maxSize, ttl, softLimit;
      entries, totalSize, rows, tableOpen, disk := map[], 0, d.rows, opens, d.disk;
      this.stuck, this.badRows, sweepFails := stuck, badRows, false;
      unkeyed, latest, clock, dirty, moved, sites := 0, map[], now, {}, {}, {};
      points, this.whole := [Point(d, h, NoChange)], whole;
      new;
      FirstPoint(d, h, whole, now);
      Recover(d, streamDirs, now, h);
      TellsFromStart(d, h, points, latest);
    }
  }

  lemma TellsFromStart(d: Durable, h: History, points: seq<Point>, latest: map<Key, Bytes>)
    requires [Point(d, h, NoChange)] <= points && Tells(points, 1, h.latest, latest, h.busy, h.moved)
    ensures Tells(points, 0, h.latest, latest, h.busy, h.moved)
  {
  }

  /** The next process, started after a stop at any durable state of an operation on a valid cache:
      a store, a removal, an eviction, Clear, or a start (the points from n on are the operation's).
      It is valid and restored; every key it has maps to one whole file of its real size, which
      holds what was last stored before or after the operation, or what the operation was storing.
      Only for a key in `moved` it may be the whole of an earlier store. */
  method Restart(c: Cache, d: Durable, opens: bool, streamDirs: nat, stuck: set<Path>, badRows: set<Key>, now: int,
                 ghost n: nat, ghost i: nat, ghost before: map<Key, Bytes>, ghost after: map<Key, Bytes>,
                 ghost busy: Option<(Key, Bytes)>, ghost moved: set<Key>)
    returns (next: Cache)
    requires c.Valid() && c.clock <= now && n <= i < |c.points| && d == c.points[i].durable
    requires Tells(c.points, n, before, after, busy, moved)
    ensures fresh(next) && next.Valid() && next.Restored(d, streamDirs, now, c.points[i].history)
    ensures next.clock == now && next.tableOpen == opens && next.whole == c.whole
    ensures var h := c.points[i].history; Tells(next.points, 0, h.latest, next.latest, h.busy, h.moved)
    ensures next.entries == if opens then Recovered(d, now) else map[]
    ensures forall k :: k in next.entries ==>
              var e := next.entries[k];
              && e.path in next.disk && e.size == |next.disk[e.path]| && (k, next.disk[e.path]) in c.whole
              && (k !in moved ==> OneOf(before, after, busy, k, next.disk[e.path]))
  {
    hide SafePoint, CountInv, TimesInv, RowsInv;
    ghost var h := c.points[i].history;
    next := new Cache(c.maxSize, c.ttl, c.softLimit, d, opens, streamDirs, stuck, badRows, now, h, c.whole);
    forall k | k in next.entries
      ensures FileInv(k, next.entries[k], next.disk, next.latest) && (k, next.latest[k]) in c.whole
      ensures k !in moved ==> OneOf(before, after, busy, k, next.latest[k])
    {
    }
  }

  // ----- How long stored entries live -----

  /** After a Put that is not evicted at once, the key is found exactly until its time to live is over:
      the caller's if it is positive, never if it is negative, else the cache's own, if there is one. */
  method PutThenGet(c: Cache, key: Key, data: Bytes, tmp: Path, ttl: int, now: int, later: int)
    returns (stored: bool, path: Option<Path>)
    requires c.Valid() && c.clock <= now <= later && 0 <= now && tmp.Temp? && tmp !in c.disk
    modifies c
    ensures c.Valid()
    ensures stored ==>
              (path.Some? <==>
               || ttl < 0
               || (ttl > 0 && later <= now + ttl)
               || (ttl == 0 && (c.ttl <= 0 || later <= now + c.ttl)))
    ensures stored && path.Some? ==> path.value in c.disk && c.disk[path.value] == data
  {
    hide Cache.Valid, TookAway, Stores, Tells, Expiry;
    ghost var v;
    path, v := c.Put(key, data, tmp, ttl, now, NoFault);
    stored := key in c.entries;
    path := None;
    if stored {
      path := c.Get(key, later);
    }
  }

  /** The same for a file that the caller streams and registers: the cache's own time to live counts. */
  method StreamThenGet(c: Cache, key: Key, path: Path, data: Bytes, tmp: Path, now: int, later: int)
    returns (stored: bool, found: Option<Path>)
    requires c.Valid() && c.clock <= now <= later && 0 <= now && OwnPath(path, key)
    requires (tmp.Temp? || tmp.StreamTemp?) && tmp !in c.disk
    modifies c
    ensures c.Valid()
    ensures stored ==> (found.Some? <==> c.ttl <= 0 || later <= now + c.ttl)
    ensures stored && found.Some? ==> found.value in c.disk && c.disk[found.value] == data
  {
    hide Cache.Valid, TookAway, Stores, Tells, Expiry;
    ghost var v := c.Stream(key, path, data, tmp, now, NoFault);
    stored := key in c.entries;
    found := None;
    if stored {
      found := c.Get(key, later);
    }
  }

  /** And the time to live goes on counting over a restart, if the row could be written. */
  method PutRestartGet(c: Cache, key: Key, data: Bytes, tmp: Path, ttl: int, now: int, start: int, later: int)
    returns (stored: bool, next: Cache, path: Option<Path>)
    requires c.Valid() && c.tableOpen && key !in c.badRows
    requires c.clock <= now <= start <= later && 0 <= now && tmp.Temp? && tmp !in c.disk
    modifies c
    ensures next.Valid()
    ensures stored ==>
              (path.Some? <==>
               || ttl < 0
               || (ttl > 0 && later <= now + ttl)
               || (ttl == 0 && (c.ttl <= 0 || later <= now + c.ttl)))
    ensures stored && path.Some? ==> path.value in next.disk && next.disk[path.value] == data
  {
    hide Cache.Valid, TookAway, Stores, Tells, Expiry, SafePoint, WholeFiles, FileBytes, LatestKnown, CountsAllFiles;
    ghost var v;
    path, v := c.Put(key, data, tmp, ttl, now, NoFault);
    stored := key in c.entries;
    AnyTime(c);
    c.EntriesComeBack(start);
    var d := Durable(c.disk, c.rows);
    next := new Cache(c.maxSize, c.ttl, c.softLimit, d, true, 0, {}, {}, start, c.Told(), c.whole);
    FileOf(c, key);
    assert stored ==> key in c.rows && key !in c.dirty;
    path := next.Get(key, later);
    if stored && path.Some? { FileOf(next, key); }
  }

  lemma FileOf(c: Cache, key: Key)
    requires c.Valid()
    ensures key in c.entries ==> FileInv(key, c.entries[key], c.disk, c.latest)
  {
  }

  // ----- A row that is left behind -----

  /** A new cache without limits in an empty directory. */
  method Unlimited() returns (c: Cache)
    ensures fresh(c) && c.Valid() && c.tableOpen && c.clock == 0 && c.maxSize == 0 && c.ttl == 0 && c.badRows == {}
    ensures c.disk == map[] && c.rows == map[] && c.entries == map[] && c.latest == map[] && c.moved == {}
  {
    hide Cache.Valid, SafePoint, WholeFiles, FileBytes, Tells, CountsAllFiles;
    ghost var h := History(map[], None, {}, 0, {});
    NothingSafe(h);
    c := new Cache(0, 0, None, Durable(map[], map[]), true, 0, {}, {}, 0, h, {});
  }

  /** And one key stored in it. */
  method OneStored(key: Key, data: Bytes) returns (c: Cache)
    ensures fresh(c) && c.Valid() && c.tableOpen && c.clock == 0 && c.maxSize == 0 && c.ttl == 0
    ensures c.disk == map[Final(key) := data] && c.latest == map[key := data] && c.moved == {}
    ensures c.rows == map[key := Record(Final(key), |data|, 0, 0, 0)] && c.entries == c.rows
  {
    hide Cache.Valid, Tells, Without;
    c := Unlimited();
    var path;
    ghost var v;
    path, v := c.Put(key, data, Temp(0), 0, 0, NoFault);
    NoVictims(map[key := Record(Final(key), |data|, 0, 0, 0)], 0, 0, true);
  }

  /** And stored again elsewhere while its row cannot be written. */
  method StoredTwice(key: Key, older: Bytes, newer: Bytes) returns (c: Cache)
    ensures fresh(c) && c.Valid() && c.clock == 0 && key in c.entries && c.latest == map[key := newer] &&
              c.moved == {key}
    ensures Final(key) in c.disk && c.disk[Final(key)] == older
    ensures c.rows == map[key := Record(Final(key), |older|, 0, 0, 0)]
  {
    hide Cache.Valid, Tells, EvictionRun, TookAway;
    c := OneStored(key, older);
    c.Disturb({}, {key}, false);
    ghost var v := c.Stream(key, Streams(key), newer, StreamTemp(0), 0, NoFault);
  }

  /** A run in which a moved key comes back with old bytes: it is stored at one path, then at the other
      while its row cannot be written, and the process starts again. */
  method MovedKeyComesBack(key: Key, older: Bytes, newer: Bytes) returns (c: Cache, next: Cache)
    ensures c.Valid() && key in c.entries && c.latest == map[key := newer] && c.moved == {key}
    ensures next.Valid() && key in next.entries
    ensures next.entries[key].path in next.disk && next.disk[next.entries[key].path] == older
  {
    hide Cache.Valid, SafePoint, WholeFiles, FileBytes, Tells, LatestKnown, CountsAllFiles;
    c := StoredTwice(key, older, newer);
    AnyTime(c);
    var d := Durable(c.disk, c.rows);
    next := new Cache(0, 0, None, d, true, 0, {}, {}, 0, c.Told(), c.whole);
    assert key in Recovered(d, 0) && Recovered(d, 0)[key].path == Final(key);
    EveryFileIsThere(next, key);
  }

  lemma EveryFileIsThere(c: Cache, key: Key)
    requires c.Valid() && key in c.entries
    ensures c.entries[key].path in c.disk
  {
    assert FileInv(key, c.entries[key], c.disk, c.latest);
  }

  lemma NothingSafe(h: History)
    requires h == History(map[], None, {}, 0, {})
    ensures SafePoint(Durable(map[], map[]), h) && WholeFiles(map[], {}) && Recovered(Durable(map[], map[]), 0) == map[]
  {
  }

  /** Between operations, too, the process may stop and start again. */
  lemma AnyTime(c: Cache)
    requires c.Valid()
    ensures SafePoint(c.Here(), c.Told()) && WholeFiles(c.disk, c.whole)
  {
  }

  /** The bytes last stored under the key, before or after the operation, or in progress in it. */
  predicate OneOf(before: map<Key, Bytes>, after: map<Key, Bytes>, busy: Option<(Key, Bytes)>, k: Key, b: Bytes) {
    (k in before && before[k] == b) || (k in after && after[k] == b) || busy == Some((k, b))
  }

  // ----- Lemmas for starting -----

  /** The files that expired rows among the given ones lose. */
  function Gone(d: Durable, keys: set<Key>, now: int, stuck: set<Path>): set<Path> {
    set k | k in keys && k in d.rows && Expired(d.rows[k], now) && d.rows[k].path !in stuck :: d.rows[k].path
  }

  function Temps(disk: map<Path, Bytes>): set<Path> {
    set p | p in disk && p.Temp?
  }

  function PathsOf(entries: Entries): set<Path> {
    set k | k in entries :: entries[k].path
  }

  /** The scanned files that no row names. */
  function Unknown(disk: map<Path, Bytes>, known: set<Path>): set<Path> {
    set p | p in disk && (p.Final? || p.Legacy?) && p !in known
  }

  ghost function FileBytes(disk: map<Path, Bytes>, files: set<Path>): nat {
    if files == {} then 0 else
      var p :| p in files;
      (if p in disk then |disk[p]| else 0) + FileBytes(disk, files - {p})
  }

  /** What the entries' files hold. */
  function Contents(entries: Entries, disk: map<Path, Bytes>): map<Key, Bytes> {
    map k | k in entries && entries[k].path in disk :: disk[entries[k].path]
  }

  /** What is known of the last stores: whole bytes, and the last ones unless the row was left behind. */
  ghost predicate LatestKnown(entries: Entries, latest: map<Key, Bytes>, whole: set<(Key, Bytes)>, h: History) {
    && (forall k :: k in entries ==> k in latest)
    && (forall k :: k in latest ==> (k, latest[k]) in whole && (k !in h.moved ==> Complete(h, k, latest[k])))
  }

  /** Files stay as they are, but for temporary ones and those of expired rows, which go if they can be
      deleted. */
  ghost predicate FilesKept(disk: map<Path, Bytes>, d: Durable, now: int, open: bool, stuck: set<Path>) {
    && (forall p :: p in disk ==> p in d.disk && disk[p] == d.disk[p])
    && (forall p :: p in d.disk ==>
          (p in disk <==> p in stuck || !(p.Temp? || (open && OfExpiredRow(d.rows, now, p)))))
  }

  ghost predicate OfExpiredRow(rows: Entries, now: int, p: Path) {
    exists k :: k in rows && rows[k].path == p && rows[k].expiresAt != 0 && now > rows[k].expiresAt
  }

  /** Entries keep their rows; a row without an entry could not be deleted; and a key is out of step
      only for this reason or because its row has another size than its file. */
  ghost predicate RowsKept(rows: Entries, entries: Entries, before: Entries, dirty: set<Key>, badRows: set<Key>) {
    && (forall k :: k in rows ==> k in entries || k in badRows)
    && (forall k :: k in entries ==> k in rows && k in before && rows[k] == before[k])
    && (forall k :: k in dirty ==> k in badRows || (k in entries && k in rows && rows[k].size != entries[k].size))
  }

  /** Rows that are wrong: the size may differ after a stop, and deletes may fail. */
  function OutOfStep(rows: Entries, entries: Entries): set<Key> {
    set k | k in rows && !(k in entries && RowMatches(rows[k], entries[k]))
  }

  lemma {:induction false} FileBytesRemove(disk: map<Path, Bytes>, files: set<Path>, p: Path)
    requires p in files
    ensures FileBytes(disk, files) == (if p in disk then |disk[p]| else 0) + FileBytes(disk, files - {p})
    decreases files
  {
    var q :| q in files &&
        FileBytes(disk, files) == (if q in disk then |disk[q]| else 0) + FileBytes(disk, files - {q});
    if q != p {
      FileBytesRemove(disk, files - {q}, p);
      FileBytesRemove(disk, files - {p}, q);
      assert files - {q} - {p} == files - {p} - {q};
    }
  }

  lemma {:induction false} SameFileBytes(a: map<Path, Bytes>, b: map<Path, Bytes>, files: set<Path>)
    requires forall p :: p in files ==> p in a && p in b && a[p] == b[p]
    ensures FileBytes(a, files) == FileBytes(b, files)
    decreases files
  {
    if files != {} {
      var p :| p in files;
      FileBytesRemove(a, files, p);
      FileBytesRemove(b, files, p);
      SameFileBytes(a, b, files - {p});
    }
  }

  lemma FirstPoint(d: Durable, h: History, whole: set<(Key, Bytes)>, clock: int)
    requires SafePoint(d, h) && WholeFiles(d.disk, whole) && h.clock <= clock
    ensures Traced([Point(d, h, NoChange)], d, whole, clock)
  {
  }

  lemma NothingIsEmpty()
    ensures TotalSize(map[]) == 0
  {
  }

  lemma NoRowsRead(d: Durable, now: int, stuck: set<Path>)
    ensures Recovered(d, now) - d.rows.Keys == map[] && Gone(d, {}, now, stuck) == {} && TotalSize(map[]) == 0
    ensures Recovered(d, now).Keys <= d.rows.Keys
  {
  }

  lemma OneMoreRead(all: Entries, keys: set<Key>, rest: set<Key>, key: Key)
    requires key in rest && rest <= keys && all.Keys <= keys
    ensures keys - (rest - {key}) == keys - rest + {key}
    ensures all - (rest - {key}) == if key in all then (all - rest)[key := all[key]] else all - rest
  {
  }

  /** Reading one more row: whether its file is there does not depend on the rows read before. */
  lemma RowRead(d: Durable, h: History, now: int, keys: set<Key>, key: Key, stuck: set<Path>)
    requires SafePoint(d, h) && key in d.rows && key !in keys
    ensures d.rows[key].path !in Gone(d, keys, now, stuck)
    ensures key in Recovered(d, now) <==> !Expired(d.rows[key], now) && d.rows[key].path in d.disk
    ensures key in Recovered(d, now) ==> Recovered(d, now)[key] == d.rows[key].(size := |d.disk[d.rows[key].path]|)
    ensures Gone(d, keys + {key}, now, stuck) ==
            Gone(d, keys, now, stuck) +
            (if Expired(d.rows[key], now) && d.rows[key].path !in stuck then {d.rows[key].path} else {})
  {
    var before, after := Gone(d, keys, now, stuck), Gone(d, keys + {key}, now, stuck);
    forall p | p in before ensures p in after {
      var k :| k in keys && k in d.rows && Expired(d.rows[k], now) && d.rows[k].path !in stuck && d.rows[k].path == p;
      assert k in keys + {key};
    }
    if Expired(d.rows[key], now) && d.rows[key].path !in stuck { assert key in keys + {key}; }
  }

  lemma NothingScanned(disk: map<Path, Bytes>, known: set<Path>)
    ensures Unknown(disk, known) - disk.Keys == {} && Temps(disk) - disk.Keys == {}
    ensures FileBytes(disk, {}) == 0
  {
  }

  lemma FileScanned(disk: map<Path, Bytes>, known: set<Path>, rest: set<Path>, p: Path, stuck: set<Path>)
    requires p in rest && rest <= disk.Keys
    ensures p in disk && (p.Temp? <==> p in Temps(disk))
    ensures !p.Temp? ==> Temps(disk) - (rest - {p}) == Temps(disk) - rest
    ensures p.Temp? ==> Temps(disk) - (rest - {p}) == Temps(disk) - rest + {p}
    ensures var counted := (p.Final? || p.Legacy?) && p !in known;
            FileBytes(disk, Unknown(disk, known) - (rest - {p})) ==
            FileBytes(disk, Unknown(disk, known) - rest) + if counted then |disk[p]| else 0
  {
    var u := Unknown(disk, known);
    if (p.Final? || p.Legacy?) && p !in known {
      assert u - (rest - {p}) - {p} == u - rest;
      FileBytesRemove(disk, u - (rest - {p}), p);
    } else {
      assert u - (rest - {p}) == u - rest;
    }
  }

  lemma ScanCounts(d0: map<Path, Bytes>, known: set<Path>, stuck: set<Path>)
    ensures var disk := d0 - (Temps(d0) - stuck);
            Unknown(disk, known) == Unknown(d0, known) &&
                FileBytes(disk, Unknown(disk, known)) == FileBytes(d0, Unknown(d0, known))
  {
    var disk := d0 - (Temps(d0) - stuck);
    assert Unknown(disk, known) == Unknown(d0, known);
    SameFileBytes(disk, d0, Unknown(d0, known));
  }

  /** What a start has made of the durable state: the entries, the files and the rows. */
  ghost predicate Cleaned(d: Durable, now: int, e: Durable, opens: bool, stuck: set<Path>, badRows: set<Key>,
      entries: Entries) {
    var d1 := if opens then d.disk - Gone(d, d.rows.Keys, now, stuck) else d.disk;
    && entries == (if opens then Recovered(d, now) else map[])
    && e.disk == d1 - (Temps(d1) - stuck)
    && e.rows == (if opens then RowsLeft(d.rows, d.rows.Keys - entries.Keys, badRows) else d.rows)
  }

  /** The state after recovery is a valid cache in which every entry has its complete file. */
  lemma StartIsValid(d: Durable, h: History, now: int, e: Durable, opens: bool, stuck: set<Path>, badRows: set<Key>,
                     entries: Entries, whole: set<(Key, Bytes)>)
    requires SafePoint(d, h) && h.clock <= now && WholeFiles(d.disk, whole)
    requires Cleaned(d, now, e, opens, stuck, badRows, entries)
    ensures var latest := Contents(e.rows, e.disk);
            && FilesInv(entries, e.disk, latest)
            && SafePoint(e, History(latest, None, {}, now, PathsOf(e.rows)))
            && LatestKnown(entries, latest, whole, h)
    ensures TimesInv(entries, now)
    ensures RowsInv(e.rows, entries, OutOfStep(e.rows, entries))
    ensures opens ==>
              RowsKept(e.rows, entries, d.rows, OutOfStep(e.rows, entries), badRows) && entries.Keys <= e.rows.Keys
    ensures FilesKept(e.disk, d, now, opens, stuck)
  {
    StartFiles(d, h, now, e, opens, stuck, badRows, entries);
    StartRows(d, h, now, e, opens, stuck, badRows, entries);
    hide Cleaned, FilesInv, TimesInv, RowsInv, RowsKept, FilesKept, Recovered, Gone, PathsOf;
    StartIsSafe(d, h, now, e, whole);
  }

  lemma GoneIs(d: Durable, now: int, stuck: set<Path>)
    ensures forall p :: p in Gone(d, d.rows.Keys, now, stuck) <==> OfExpiredRow(d.rows, now, p) && p !in stuck
  {
  }

  lemma StartFiles(d: Durable, h: History, now: int, e: Durable, opens: bool, stuck: set<Path>, badRows: set<Key>,
                   entries: Entries)
    requires SafePoint(d, h) && Cleaned(d, now, e, opens, stuck, badRows, entries)
    ensures FilesKept(e.disk, d, now, opens, stuck) && FilesInv(entries, e.disk, Contents(e.rows, e.disk))
    ensures forall k :: k in entries ==> k in Contents(e.rows, e.disk)
  {
    hide TimesInv, SitesInv, Complete;
    GoneIs(d, now, stuck);
    forall k | k in entries
      ensures OwnPath(entries[k].path, k) && entries[k].path in e.disk && entries[k].size == |e.disk[entries[k].path]|
      ensures k in e.rows && e.rows[k].path == entries[k].path
    {
      EntryFileStays(d, h, now, k, stuck);
    }
  }

  lemma StartRows(d: Durable, h: History, now: int, e: Durable, opens: bool, stuck: set<Path>, badRows: set<Key>,
                  entries: Entries)
    requires SafePoint(d, h) && h.clock <= now && Cleaned(d, now, e, opens, stuck, badRows, entries)
    ensures TimesInv(entries, now) && forall k :: k in e.rows ==> k in d.rows && e.rows[k] == d.rows[k]
    ensures RowsInv(e.rows, entries, OutOfStep(e.rows, entries))
    ensures opens ==>
              RowsKept(e.rows, entries, d.rows, OutOfStep(e.rows, entries), badRows) && entries.Keys <= e.rows.Keys
  {
    hide SitesInv, Complete, Expired, Gone, Temps;
  }

  /** Only less is there than before, and every file that a row names is what was last stored. */
  lemma StartIsSafe(d: Durable, h: History, now: int, e: Durable, whole: set<(Key, Bytes)>)
    requires SafePoint(d, h) && h.clock <= now && WholeFiles(d.disk, whole)
    requires forall k :: k in e.rows ==> k in d.rows && e.rows[k] == d.rows[k]
    requires forall p :: p in e.disk ==> p in d.disk && e.disk[p] == d.disk[p]
    ensures var latest := Contents(e.rows, e.disk);
            && SafePoint(e, History(latest, None, {}, now, PathsOf(e.rows)))
            && forall k :: k in latest ==> (k, latest[k]) in whole && (k !in h.moved ==> Complete(h, k, latest[k]))
  {
  }

  lemma EntryFileStays(d: Durable, h: History, now: int, k: Key, stuck: set<Path>)
    requires SafePoint(d, h) && k in Recovered(d, now)
    ensures Recovered(d, now)[k].path in d.disk - Gone(d, d.rows.Keys, now, stuck) &&
              OwnPath(Recovered(d, now)[k].path, k)
  {
    RowRead(d, h, now, d.rows.Keys - {k}, k, stuck);
    assert d.rows.Keys - {k} + {k} == d.rows.Keys;
  }

  // ----- Stopping anywhere -----

  /** If the process stops at any durable state that an operation passes through, that state is one a
      start can begin from, and the start finds every key either absent or mapped to one whole file
      of its real size, never a part. It holds the bytes last stored under the key, before or after
      the operation, or those being stored; unless the key is in `moved`, when its row may still
      name the whole file of an earlier store because a later row write failed. */
  lemma StopRecovers(points: seq<Point>, here: Durable, whole: set<(Key, Bytes)>, clock: int, n: nat, i: nat,
                     before: map<Key, Bytes>, after: map<Key, Bytes>, busy: Option<(Key, Bytes)>, moved: set<Key>,
                     now: int, k: Key)
    requires Traced(points, here, whole, clock) && clock <= now && n <= i < |points|
    requires Tells(points, n, before, after, busy, moved)
    ensures SafePoint(points[i].durable, points[i].history) && points[i].history.clock <= now
    ensures WholeFiles(points[i].durable.disk, whole)
    ensures k in Recovered(points[i].durable, now) ==>
              var e := Recovered(points[i].durable, now)[k];
              && e.path in points[i].durable.disk && OwnPath(e.path, k)
              && var bytes := points[i].durable.disk[e.path];
                 && e.size == |bytes| && (k, bytes) in whole
                 && (k !in moved ==> OneOf(before, after, busy, k, bytes))
  {
    if k in Recovered(points[i].durable, now) {
      RecoveryFindsCompleteFiles(points[i].durable, points[i].history, whole, now, k);
    }
  }

  /** During a store the bytes are the last stored ones or, for the key being stored, the new ones. */
  lemma StopDuringStoreRecovers(points: seq<Point>, here: Durable, whole: set<(Key, Bytes)>, clock: int, n: nat, i: nat,
                                before: map<Key, Bytes>, key: Key, data: Bytes, moved: set<Key>, now: int, k: Key)
    requires Traced(points, here, whole, clock) && clock <= now && n <= i < |points|
    requires Tells(points, n, before, before[key := data], Some((key, data)), moved)
    requires k in Recovered(points[i].durable, now)
    ensures var e := Recovered(points[i].durable, now)[k];
            && e.path in points[i].durable.disk && OwnPath(e.path, k)
            && var bytes := points[i].durable.disk[e.path];
               && e.size == |bytes| && (k, bytes) in whole
               && (k !in moved ==> (k in before && bytes == before[k]) || (k == key && bytes == data))
  {
    StopRecovers(points, here, whole, clock, n, i, before, before[key := data], Some((key, data)), moved, now, k);
  }

  /** During a removal, an eviction or Clear they are the last stored ones. */
  lemma StopDuringRemovalRecovers(points: seq<Point>, here: Durable, whole: set<(Key, Bytes)>, clock: int, n: nat,
                                  i: nat, latest: map<Key, Bytes>, moved: set<Key>, now: int, k: Key)
    requires Traced(points, here, whole, clock) && clock <= now && n <= i < |points|
    requires Tells(points, n, latest, latest, None, moved)
    requires k in Recovered(points[i].durable, now)
    ensures var e := Recovered(points[i].durable, now)[k];
            && e.path in points[i].durable.disk && OwnPath(e.path, k)
            && var bytes := points[i].durable.disk[e.path];
               && e.size == |bytes| && (k, bytes) in whole
               && (k !in moved ==> k in latest && bytes == latest[k])
  {
    StopRecovers(points, here, whole, clock, n, i, latest, latest, None, moved, now, k);
  }

  /** During a start they are those the process before had last stored or was storing when it stopped:
      the history `h` says which. */
  lemma StopDuringStartRecovers(points: seq<Point>, here: Durable, whole: set<(Key, Bytes)>, clock: int, i: nat,
                                h: History, entries: Entries, latest: map<Key, Bytes>, now: int, k: Key)
    requires Traced(points, here, whole, clock) && clock <= now && i < |points|
    requires Tells(points, 0, h.latest, latest, h.busy, h.moved) && LatestKnown(entries, latest, whole, h)
    requires k in Recovered(points[i].durable, now)
    ensures var e := Recovered(points[i].durable, now)[k];
            && e.path in points[i].durable.disk && OwnPath(e.path, k)
            && var bytes := points[i].durable.disk[e.path];
               && e.size == |bytes| && (k, bytes) in whole && (k !in h.moved ==> Complete(h, k, bytes))
  {
    StopRecovers(points, here, whole, clock, 0, i, h.latest, latest, h.busy, h.moved, now, k);
  }

  // ----- Bytes are conserved by recovery -----

  lemma {:induction false} EntryBytes(entries: Entries, disk: map<Path, Bytes>, latest: map<Key, Bytes>)
    requires FilesInv(entries, disk, latest)
    ensures TotalSize(entries) == FileBytes(disk, PathsOf(entries))
    decreases |entries|
  {
    if entries == map[] {
      assert PathsOf(entries) == {};
    } else {
      var k :| k in entries;
      var rest := entries - {k};
      TotalRemove(entries, k);
      EntryBytes(rest, disk, latest);
      assert PathsOf(entries) - {entries[k].path} == PathsOf(rest) by {
        forall j | j in rest ensures entries[j].path != entries[k].path {
          assert FileInv(j, entries[j], disk, latest) && FileInv(k, entries[k], disk, latest);
        }
        forall p | p in PathsOf(entries) && p != entries[k].path ensures p in PathsOf(rest) {
          var j :| j in entries && entries[j].path == p;
          assert j in rest;
        }
      }
      assert FileInv(k, entries[k], disk, latest);
      FileBytesRemove(disk, PathsOf(entries), entries[k].path);
    }
  }

  lemma {:induction false} FileBytesUnion(disk: map<Path, Bytes>, a: set<Path>, b: set<Path>)
    requires a !! b
    ensures FileBytes(disk, a + b) == FileBytes(disk, a) + FileBytes(disk, b)
    decreases a
  {
    if a == {} {
      assert a + b == b;
    } else {
      var p :| p in a;
      FileBytesRemove(disk, a, p);
      FileBytesRemove(disk, a + b, p);
      assert a + b - {p} == (a - {p}) + b;
      FileBytesUnion(disk, a - {p}, b);
    }
  }

  /** If all entries came from Put, the count is the bytes of all finished files in the first level of
      subdirectories. */
  ghost predicate CountsAllFiles(entries: Entries, disk: map<Path, Bytes>, count: int) {
    (forall k :: k in entries ==> entries[k].path.Final?) ==>
      count == FileBytes(disk, set p | p in disk && (p.Final? || p.Legacy?))
  }

  /** After recovery of a cache whose entries all came from Put, entry sizes and unknown bytes add up
      to the bytes of all finished files in the first level of subdirectories. */
  lemma RecoveryConservesBytes(entries: Entries, disk: map<Path, Bytes>, latest: map<Key, Bytes>)
    requires FilesInv(entries, disk, latest)
    ensures CountsAllFiles(entries, disk, TotalSize(entries) + FileBytes(disk, Unknown(disk, PathsOf(entries))))
  {
    if forall k :: k in entries ==> entries[k].path.Final? {
      FinalBytes(entries, disk, latest);
      assert Unknown(disk, {}) == set p | p in disk && (p.Final? || p.Legacy?);
    }
  }

  lemma FinalBytes(entries: Entries, disk: map<Path, Bytes>, latest: map<Key, Bytes>)
    requires FilesInv(entries, disk, latest) && forall k :: k in entries ==> entries[k].path.Final?
    ensures TotalSize(entries) + FileBytes(disk, Unknown(disk, PathsOf(entries))) == FileBytes(disk, Unknown(disk, {}))
  {
    EntryBytes(entries, disk, latest);
    var known := PathsOf(entries);
    forall p | p in known ensures p in Unknown(disk, {}) {
      var k :| k in entries && entries[k].path == p;
      assert FileInv(k, entries[k], disk, latest);
    }
    assert Unknown(disk, {}) == known + Unknown(disk, known);
    FileBytesUnion(disk, known, Unknown(disk, known));
  }

  // ----- Lemmas for storing -----

  /** When a positive time to live applies, from the call or by default; zero means never. */
  function Expiry(now: int, ttl: int, standard: int): int {
    var effective := if ttl == 0 then standard else ttl;
    if effective > 0 then now + effective else 0
  }

  lemma BusyKeepsSafety(d: Durable, h: History, key: Key, data: Bytes, path: Path)
    requires SafePoint(d, h) && h.busy == None
    ensures SafePoint(d, h.(busy := Some((key, data)), sites := h.sites + {path}))
  {
  }

  lemma OrphanKeepsFiles(entries: Entries, before: map<Path, Bytes>, disk: map<Path, Bytes>, latest: map<Key, Bytes>,
      tmp: Path)
    requires FilesInv(entries, before, latest) && disk - {tmp} == before
    ensures FilesInv(entries, disk, latest)
  {
    forall k | k in entries ensures FileInv(k, entries[k], disk, latest) {
      assert entries[k].path in disk - {tmp};
    }
  }

  lemma OthersStay(entries: Entries, disk: map<Path, Bytes>, latest: map<Key, Bytes>, key: Key, path: Path, data: Bytes)
    requires FilesInv(entries, disk, latest) && OwnPath(path, key)
    ensures OthersInv(entries, disk[path := data], latest, key)
  {
  }

  lemma RegisteredFiles(entries: Entries, disk: map<Path, Bytes>, latest: map<Key, Bytes>, key: Key, e: Record,
      data: Bytes)
    requires OthersInv(entries, disk, latest, key) && OwnPath(e.path, key) && e.path in disk && disk[e.path] == data &&
              e.size == |data|
    ensures FilesInv(entries[key := e], disk, latest[key := data])
  {
  }

  lemma EntryComes(entries: Entries, totalSize: int, unkeyed: nat, rows: Entries, dirty: set<Key>, now: int, key: Key,
      e: Record)
    requires CountInv(entries, totalSize, unkeyed) && TimesInv(entries, now) && RowsInv(rows, entries, dirty)
    requires e.createdAt == e.accessedAt == now
    ensures CountInv(entries[key := e], totalSize - (if key in entries then entries[key].size else 0) + e.size, unkeyed)
    ensures TimesInv(entries[key := e], now)
    ensures RowsInv(rows[key := e], entries[key := e], dirty - {key}) && RowsInv(rows, entries[key := e], dirty + {key})
  {
    TotalInsert(entries, key, e);
    if key in entries { TotalRemove(entries, key); } else { assert entries - {key} == entries; }
  }

  /** What a finished store leaves: the new entry among the old ones, less what LRU eviction took. */
  ghost predicate Stores(before: Entries, after: Entries, key: Key, e: Record, unkeyed: nat, maxSize: int,
      victims: seq<Key>) {
    var m := before[key := e];
    && after == Without(m, victims)
    && (if maxSize > 0 then EvictionRun(m, TotalSize(m) + unkeyed, maxSize, true, victims) else victims == [])
  }

  lemma StoredEntry(before: Entries, after: Entries, key: Key, e: Record, unkeyed: nat, maxSize: int,
                    victims: seq<Key>)
    requires Stores(before, after, key, e, unkeyed, maxSize, victims)
    ensures key in after ==> after[key] == e
  {
  }

  lemma NewestSurvives(before: Entries, after: Entries, key: Key, e: Record, unkeyed: nat, maxSize: int,
      victims: seq<Key>)
    requires Stores(before, after, key, e, unkeyed, maxSize, victims)
    ensures maxSize > 0 && (forall k :: k in before && k != key ==> before[k].accessedAt < e.accessedAt) ==>
              && (key in after <==> e.size + unkeyed <= maxSize)
              && (key !in after ==> after == map[])
  {
    if maxSize > 0 && forall k :: k in before && k != key ==> before[k].accessedAt < e.accessedAt {
      NewestSurvivesIffItFits(before[key := e], unkeyed, maxSize, victims, key);
    }
  }

  // ----- Lemmas for the loops -----

  function ExpiredKeys(entries: Entries, now: int): set<Key> {
    set k | k in entries && Expired(entries[k], now)
  }

  lemma {:induction false} ThereIsAnOldest(m: Entries, keys: set<Key>, byAccess: bool)
    requires keys != {} && keys <= m.Keys
    ensures exists k :: k in keys && forall j :: j in keys ==> Stamp(m[k], byAccess) <= Stamp(m[j], byAccess)
    decreases keys
  {
    var x :| x in keys;
    if keys - {x} != {} {
      ThereIsAnOldest(m, keys - {x}, byAccess);
      var y :| y in keys - {x} && forall j :: j in keys - {x} ==> Stamp(m[y], byAccess) <= Stamp(m[j], byAccess);
      var z := if Stamp(m[x], byAccess) <= Stamp(m[y], byAccess) then x else y;
      assert forall j :: j in keys ==> Stamp(m[z], byAccess) <= Stamp(m[j], byAccess);
    } else {
      assert keys == {x};
    }
  }

  lemma NextOldest(m: Entries, order: seq<Key>, rest: set<Key>, key: Key, byAccess: bool)
    requires OldestFirst(m, order, byAccess) && rest <= m.Keys && KeySet(order) == m.Keys - rest
    requires key in rest && forall j :: j in rest ==> Stamp(m[key], byAccess) <= Stamp(m[j], byAccess)
    ensures OldestFirst(m, order + [key], byAccess)
  {
    assert forall k :: k in order <==> k in KeySet(order);
  }

  lemma NoVictims(m: Entries, total: int, limit: int, byAccess: bool)
    ensures OldestFirst(m, [], byAccess) && Without(m, []) == m
    ensures forall order :: Evicted(m, order, 0) == 0
    ensures total <= limit ==> EvictionRun(m, total, limit, byAccess, [])
  {
  }

  /** The sizes of the first n entries of the order. */
  ghost function Evicted(m: Entries, order: seq<Key>, n: nat): nat
    requires n <= |order|
  {
    if n == 0 then 0 else Evicted(m, order, n - 1) + if order[n - 1] in m then m[order[n - 1]].size else 0
  }

  lemma EvictOne(m: Entries, order: seq<Key>, i: nat, byAccess: bool)
    requires OldestFirst(m, order, byAccess) && i < |order|
    ensures order[i] in Without(m, order[..i]) && Without(m, order[..i])[order[i]] == m[order[i]]
    ensures Without(m, order[..i + 1]) == Without(m, order[..i]) - {order[i]}
    ensures Evicted(m, order, i + 1) == Evicted(m, order, i) + m[order[i]].size
  {
    assert order[..i + 1] == order[..i] + [order[i]];
    WithoutSnoc(m, order[..i], order[i]);
  }

  lemma {:induction false} EvictedIsSizes(m: Entries, order: seq<Key>, n: nat)
    requires n <= |order| && forall k :: k in order ==> k in m
    ensures (forall k :: k in order[..n] ==> k in m) && Evicted(m, order, n) == Sizes(m, order[..n])
  {
    if n > 0 {
      EvictedIsSizes(m, order, n - 1);
      assert order[..n][..n - 1] == order[..n - 1];
    }
  }

  lemma PrefixIsOldestFirst(m: Entries, order: seq<Key>, i: nat, byAccess: bool)
    requires OldestFirst(m, order, byAccess) && KeySet(order) == m.Keys && i <= |order|
    ensures OldestFirst(m, order[..i], byAccess)
  {
    var victims := order[..i];
    assert forall j :: 0 <= j < i ==> victims[j] == order[j] && order[j] in victims;
    forall j, k | 0 <= j < i && k in m && k !in victims
      ensures Stamp(m[victims[j]], byAccess) <= Stamp(m[k], byAccess)
    {
      assert k in KeySet(order);
      var n :| 0 <= n < |order| && order[n] == k;
    }
  }

  lemma RunStops(m: Entries, total: int, limit: int, order: seq<Key>, i: nat)
    requires (forall k :: k in order ==> k in m) && i <= |order|
    requires forall n :: 0 <= n < i ==> total - Evicted(m, order, n) > limit
    requires total - Evicted(m, order, i) <= limit || Without(m, order[..i]) == map[]
    ensures (forall k :: k in order[..i] ==> k in m) && StoppedInTime(m, total, limit, order[..i])
  {
    hide Evicted, Without;
    var victims := order[..i];
    EvictedIsSizes(m, order, i);
    forall n | 0 <= n < i ensures (forall k :: k in victims[..n] ==> k in m) && total - Sizes(m, victims[..n]) > limit {
      EvictedIsSizes(m, order, n);
      assert victims[..n] == order[..n];
    }
  }

  lemma RunEnds(m: Entries, total: int, limit: int, byAccess: bool, order: seq<Key>, i: nat)
    requires OldestFirst(m, order, byAccess) && KeySet(order) == m.Keys && i <= |order|
    requires forall n :: 0 <= n < i ==> total - Evicted(m, order, n) > limit
    requires i == |order| || total - Evicted(m, order, i) <= limit
    ensures EvictionRun(m, total, limit, byAccess, order[..i])
  {
    PrefixIsOldestFirst(m, order, i, byAccess);
    assert forall k :: k in order ==> k in KeySet(order);
    AllGone(m, order);
    hide OldestFirst, KeySet, Without, StoppedInTime, Evicted;
    assert i == |order| ==> order[..i] == order;
    RunStops(m, total, limit, order, i);
  }

  lemma AllGone(m: Entries, order: seq<Key>)
    requires KeySet(order) == m.Keys
    ensures Without(m, order) == map[]
  {
  }

  /** Each pass of a tick is an eviction run; the soft one only if it is enabled. */
  ghost predicate Passes(m: Entries, unkeyed: nat, softLimit: Option<int>, maxSize: int, soft: seq<Key>,
      hard: seq<Key>) {
    && (if softLimit.Some? then EvictionRun(m, TotalSize(m) + unkeyed, softLimit.value, false, soft) else soft == [])
    && EvictionRun(Without(m, soft), TotalSize(Without(m, soft)) + unkeyed, maxSize, true, hard)
  }

  /** What one pass of a tick achieves, if it ran; if not, nobody was removed. */
  lemma PassOutcome(m: Entries, unkeyed: nat, limit: int, byAccess: bool, victims: seq<Key>, ran: bool)
    requires if ran then EvictionRun(m, TotalSize(m) + unkeyed, limit, byAccess, victims) else victims == []
    ensures var rest := Without(m, victims);
            && (ran ==> TotalSize(rest) + unkeyed <= limit || rest == map[])
            && TotalSize(rest) <= TotalSize(m)
            && (forall k :: k in rest ==> k in m)
            && forall k, v :: k in rest && v in victims ==> v in m && Stamp(m[v], byAccess) <= Stamp(m[k], byAccess)
  {
    if ran { EvictionMeetsLimit(m, unkeyed, limit, byAccess, victims); }
    SizesAndRest(m, victims);
  }

  lemma EmptyStays(m: Entries, victims: seq<Key>)
    ensures m == map[] ==> Without(m, victims) == map[]
  {
  }

  /** Entries only go during a tick; those that stay are as they were. */
  lemma TickOutcome(m: Entries, now: int, m0: Entries, m1: Entries, m2: Entries, soft: seq<Key>, hard: seq<Key>)
    requires m0 == m - ExpiredKeys(m, now) && m1 == Without(m0, soft) && m2 == Without(m1, hard)
    requires forall k, v :: k in m1 && v in soft ==> v in m0 && Stamp(m0[v], false) <= Stamp(m0[k], false)
    requires forall k, v :: k in m2 && v in hard ==> v in m1 && Stamp(m1[v], true) <= Stamp(m1[k], true)
    ensures forall k :: k in m2 ==> !Expired(m2[k], now)
    ensures m1 == map[] ==> m2 == map[]
    ensures forall k, v :: k in m2 && v in soft ==> v in m && m[v].createdAt <= m2[k].createdAt
    ensures forall k, v :: k in m2 && v in hard ==> v in m && m[v].accessedAt <= m2[k].accessedAt
  {
  }

  // ----- Lemmas for reading -----

  lemma LaterClock(entries: Entries, clock: int, now: int)
    requires TimesInv(entries, clock) && clock <= now
    ensures TimesInv(entries, now)
  {
  }

  lemma EntryTouched(entries: Entries, totalSize: int, unkeyed: nat, rows: Entries, dirty: set<Key>,
                     disk: map<Path, Bytes>, latest: map<Key, Bytes>, now: int, key: Key)
    requires key in entries && CountInv(entries, totalSize, unkeyed) && TimesInv(entries, now) &&
              RowsInv(rows, entries, dirty)
    requires FilesInv(entries, disk, latest)
    ensures var touched := entries[key := entries[key].(accessedAt := now)];
            && CountInv(touched, totalSize, unkeyed) && TimesInv(touched, now) && FilesInv(touched, disk, latest)
            && RowsInv(rows, touched, dirty)
            && (key in rows ==> RowsInv(rows[key := rows[key].(accessedAt := now)], touched, dirty))
    ensures FileInv(key, entries[key], disk, latest)
  {
    TotalInsert(entries, key, entries[key].(accessedAt := now));
    TotalRemove(entries, key);
  }

  lemma RowTouchKeepsSafety(d: Durable, h: History, key: Key, now: int)
    requires SafePoint(d, h) && key in d.rows && now == h.clock
    ensures SafePoint(d.(rows := d.rows[key := d.rows[key].(accessedAt := now)]), h)
  {
  }

  lemma NothingLeft(latest: map<Key, Bytes>, disk: map<Path, Bytes>, clock: int, rows: Entries)
    ensures CountInv(map[], 0, 0) && FilesInv(map[], disk, latest) && TimesInv(map[], clock) &&
              RowsInv(rows, map[], rows.Keys)
  {
  }
}
