/** Streaming an upstream body to a client and, on the side, into a cache file: the size-limited
    writers of s3/server.go and git/handler.go and the two functions that drive them. */
module Streaming {
  import opened Numbers

  /** One read of the body, and how the cache file takes it if it is offered: how many bytes it
      accepts, and whether the write reports an error. A short write always reports one. */
  datatype Chunk = Chunk(bytes: string, taken: nat, err: bool)
  {
    predicate Valid() { taken <= |bytes| && (taken < |bytes| ==> err) }
    predicate Clean() { taken == |bytes| && !err }
  }

  predicate AllValid(chunks: seq<Chunk>) { forall i :: 0 <= i < |chunks| ==> chunks[i].Valid() }
  predicate AllClean(chunks: seq<Chunk>) { forall i :: 0 <= i < |chunks| ==> chunks[i].Clean() }

  function Concat(chunks: seq<Chunk>): string {
    if chunks == [] then "" else Concat(chunks[..|chunks| - 1]) + chunks[|chunks| - 1].bytes
  }

  predicate Fits(limit: int, size: nat) {
    limit <= 0 || size <= limit
  }

  lemma {:induction false} ConcatGrows(chunks: seq<Chunk>, i: nat)
    requires i <= |chunks|
    ensures |Concat(chunks[..i])| <= |Concat(chunks)|
    ensures i < |chunks| ==> Concat(chunks[..i + 1]) == Concat(chunks[..i]) + chunks[i].bytes
    decreases |chunks|
  {
    if i < |chunks| {
      assert chunks[..i + 1][..i] == chunks[..i];
      var shorter := chunks[..|chunks| - 1];
      assert shorter[..i] == chunks[..i];
      ConcatGrows(shorter, i);
    } else {
      assert chunks[..i] == chunks;
    }
  }

  // ----- The S3 writer: never reports an error, so the client cannot notice -----

  datatype Sink = Sink(file: string, written: int, exceeded: bool, failed: bool)

  function LimitedStep(limit: int, s: Sink, c: Chunk): Sink
    requires c.Valid()
  {
    if limit > 0 && s.written + |c.bytes| > limit then s.(exceeded := true)
    else if s.exceeded then s
    else s.(file := s.file + c.bytes[..c.taken], written := s.written + c.taken, failed := s.failed || !c.Clean())
  }

  function LimitedAfter(limit: int, chunks: seq<Chunk>): Sink
    requires AllValid(chunks)
  {
    if chunks == [] then Sink("", 0, false, false)
    else LimitedStep(limit, LimitedAfter(limit, chunks[..|chunks| - 1]), chunks[|chunks| - 1])
  }

  /** However the body is split and whatever the file does, the writer ends neither exceeded nor
      failed exactly when every write was complete and the whole body fits the limit, and then
      the file holds the whole body and `written` is its length. */
  lemma {:induction false} LimitedVerdict(limit: int, chunks: seq<Chunk>)
    requires AllValid(chunks)
    ensures var s := LimitedAfter(limit, chunks);
            && (!s.exceeded && !s.failed <==> AllClean(chunks) && Fits(limit, |Concat(chunks)|))
            && (!s.exceeded && !s.failed ==> s.file == Concat(chunks) && s.written == |Concat(chunks)|)
  {
    if chunks != [] {
      var front, c := chunks[..|chunks| - 1], chunks[|chunks| - 1];
      LimitedVerdict(limit, front);
      assert c.Clean() ==> c.bytes[..c.taken] == c.bytes;
      assert AllClean(chunks) <==> AllClean(front) && c.Clean();
    }
  }

  /** Once the limit is exceeded nothing more is written to the file, however short the writes are. */
  lemma {:induction false} NothingAfterExceeding(limit: int, chunks: seq<Chunk>, n: nat)
    requires AllValid(chunks) && n <= |chunks| && LimitedAfter(limit, chunks[..n]).exceeded
    ensures LimitedAfter(limit, chunks).exceeded
    ensures LimitedAfter(limit, chunks).file == LimitedAfter(limit, chunks[..n]).file
  {
    if n < |chunks| {
      assert chunks[..|chunks| - 1][..n] == chunks[..n];
      NothingAfterExceeding(limit, chunks[..|chunks| - 1], n);
    } else {
      assert chunks[..n] == chunks;
    }
  }

  /** With a file that takes every write, `exceeded` depends on the body's length alone. */
  lemma {:induction false} ExceededMeansTooLong(limit: int, chunks: seq<Chunk>)
    requires AllClean(chunks)
    ensures LimitedAfter(limit, chunks).exceeded <==> !Fits(limit, |Concat(chunks)|)
    ensures !LimitedAfter(limit, chunks).failed
  {
    if chunks != [] {
      ExceededMeansTooLong(limit, chunks[..|chunks| - 1]);
      LimitedVerdict(limit, chunks);
      LimitedVerdict(limit, chunks[..|chunks| - 1]);
    }
  }

  class LimitedCacheWriter {
    const limit: int
    var file: string
    var written: int
    var exceeded: bool
    var failed: bool

    constructor (limit: int)
      ensures this.limit == limit && State() == Sink("", 0, false, false)
    {
      this.limit := limit;
      file, written, exceeded, failed := "", 0, false, false;
    }

    ghost function State(): Sink
      reads this
    {
      Sink(file, written, exceeded, failed)
    }

    /** Always reports success for all of its input. */
    method Write(c: Chunk) returns (n: nat)
      requires c.Valid()
      modifies this
      ensures n == |c.bytes|
      ensures State() == LimitedStep(limit, old(State()), c)
    {
      if limit > 0 && written + |c.bytes| > limit {
        exceeded := true;
        return |c.bytes|;
      }
      if exceeded {
        return |c.bytes|;
      }
      file := file + c.bytes[..c.taken];
      written := written + c.taken;
      if c.err || c.taken != |c.bytes| {
        failed := true;
        return |c.bytes|;
      }
      return |c.bytes|;
    }
  }

  /** What goes wrong around the copy: the temporary file cannot be created; the client refuses
      some chunk after taking a part of it; the upstream body ends in an error; the file cannot
      be closed, or renamed; the metadata record cannot be written. */
  datatype Faults = Faults(noTemp: bool, clientStops: nat, clientTakes: nat, bodyErr: bool, closeErr: bool,
                           renameErr: bool, metaErr: bool)

  /** What a client that stops there has of a chunk. */
  function Taken(offered: string, takes: nat): (part: string)
    ensures part <= offered && |part| == if takes <= |offered| then takes else |offered|
  {
    if takes < |offered| then offered[..takes] else offered
  }

  function Delivered(chunks: seq<Chunk>, faults: Faults): string {
    if faults.clientStops >= |chunks| then Concat(chunks)
    else Concat(chunks[..faults.clientStops]) + Taken(chunks[faults.clientStops].bytes, faults.clientTakes)
  }

  /** The whole body has arrived in a closed temporary file, and it may be kept. */
  predicate Copied(limit: int, contentLength: int, chunks: seq<Chunk>, faults: Faults) {
    && (limit <= 0 || contentLength <= limit) && Fits(limit, |Concat(chunks)|) && AllClean(chunks)
    && !faults.noTemp && faults.clientStops >= |chunks| && !faults.bodyErr && !faults.closeErr
  }

  /** The s3 driver. The client gets every chunk up to the one it refuses, whatever happens on the
      cache side. The body record changes only when the whole body has been copied; then the old
      one goes, and the new one stays exactly if the rename and the metadata succeed. It is then
      the whole body, and the metadata says its length. */
  method StreamAndStore(limit: int, contentLength: int, chunks: seq<Chunk>, faults: Faults, before: Option<string>)
    returns (client: string, body: Option<string>, described: Option<nat>)
    requires AllValid(chunks)
    ensures client == Delivered(chunks, faults)
    ensures !Copied(limit, contentLength, chunks, faults) ==> body == before && described == None
    ensures Copied(limit, contentLength, chunks, faults) && (faults.renameErr || faults.metaErr) ==>
              body == None && described == None
    ensures Copied(limit, contentLength, chunks, faults) && !faults.renameErr && !faults.metaErr ==>
              body == Some(Concat(chunks)) && described == Some(|Concat(chunks)|)
  {
    client, body, described := "", before, None;
    var written := 0;
    var bypass := (limit > 0 && contentLength > limit) || faults.noTemp;
    var writer := new LimitedCacheWriter(limit);
    var copyErr := false;
    var i := 0;
    assert chunks[..0] == [];
    while i < |chunks|
      invariant 0 <= i <= |chunks| && i <= faults.clientStops && fresh(writer) && writer.limit == limit
      invariant !copyErr && client == Concat(chunks[..i]) && written == |client|
      invariant !bypass ==> writer.State() == LimitedAfter(limit, chunks[..i])
    {
      if i == faults.clientStops {
        client := client + Taken(chunks[i].bytes, faults.clientTakes);
        copyErr := true;
        break;
      }
      ConcatGrows(chunks, i);
      client := client + chunks[i].bytes;
      written := written + |chunks[i].bytes|;
      if !bypass {
        assert chunks[..i + 1][..i] == chunks[..i];
        var _ := writer.Write(chunks[i]);
      }
      i := i + 1;
    }
    if i == |chunks| {
      assert chunks[..i] == chunks;
      LimitedVerdict(limit, chunks);
    }
    copyErr := copyErr || faults.bodyErr;
    if bypass || copyErr || faults.closeErr || writer.exceeded || writer.failed {
      return;
    }
    body := None;
    if faults.renameErr {
      return;
    }
    body := Some(writer.file);
    if faults.metaErr {
      body := None;
      return;
    }
    described := Some(written);
  }

  // ----- The git writer: an error reaches the tee, and through it the client -----

  /** The writer's count, whether it has given up, and the cache file. */
  datatype Counter = Counter(file: string, written: int, exceeded: bool)

  class CountWriter {
    const limit: int
    var file: string
    var written: int
    var exceeded: bool

    constructor (limit: int)
      ensures this.limit == limit && file == "" && written == 0 && !exceeded
    {
      this.limit := limit;
      file, written, exceeded := "", 0, false;
    }

    /** Returns what the tee reader sees: the bytes accepted and whether there was an error. */
    method Write(c: Chunk) returns (n: nat, err: bool)
      requires c.Valid()
      modifies this
      ensures Counter(file, written, exceeded) == CountStep(limit, old(Counter(file, written, exceeded)), c)
      ensures (n, err) == if exceeded then (|c.bytes|, false) else (c.taken, c.err)
    {
      if exceeded {
        return |c.bytes|, false;
      }
      written := written + |c.bytes|;
      if limit > 0 && written > limit {
        exceeded := true;
        return |c.bytes|, false;
      }
      file := file + c.bytes[..c.taken];
      return c.taken, c.err;
    }
  }

  function CountStep(limit: int, s: Counter, c: Chunk): Counter
    requires c.Valid()
  {
    if s.exceeded then s
    else if limit > 0 && s.written + |c.bytes| > limit then s.(written := s.written + |c.bytes|, exceeded := true)
    else s.(written := s.written + |c.bytes|, file := s.file + c.bytes[..c.taken])
  }

  /** Writing this chunk to the cache file fails: the file is still being written, that is, the
      body so far fits the limit, and the write reports an error. */
  predicate FileFails(limit: int, chunks: seq<Chunk>, i: nat)
    requires i < |chunks|
  {
    chunks[i].err && Fits(limit, |Concat(chunks[..i + 1])|)
  }

  /** The copy does not get past this chunk. */
  predicate Ends(limit: int, chunks: seq<Chunk>, faults: Faults, i: nat)
    requires i < |chunks|
  {
    i == faults.clientStops || (!faults.noTemp && FileFails(limit, chunks, i))
  }

  /** The first chunk at which the copy ends; |chunks| if there is none. */
  ghost predicate FirstEnd(limit: int, chunks: seq<Chunk>, faults: Faults, end: nat) {
    end <= |chunks| && (forall i :: 0 <= i < end ==> !Ends(limit, chunks, faults, i)) &&
    (end < |chunks| ==> Ends(limit, chunks, faults, end))
  }

  /** Of the chunk at which the copy ends the client is offered what the file took, if the file
      failed, and takes all of it unless it stops there itself. */
  function LastPart(limit: int, chunks: seq<Chunk>, faults: Faults, end: nat): string
    requires end < |chunks| && AllValid(chunks)
  {
    var c := chunks[end];
    var offered := if !faults.noTemp && FileFails(limit, chunks, end) then c.bytes[..c.taken] else c.bytes;
    if end == faults.clientStops then Taken(offered, faults.clientTakes) else offered
  }

  /** The git driver. The copy ends at the first chunk that the client refuses or the cache file
      fails to take; the client has everything before it and a part of that chunk. The pack is
      registered exactly if there is no such chunk, nothing else fails and it fits the limit;
      then it is the whole body, with its length. */
  method StreamAndCache(limit: int, chunks: seq<Chunk>, faults: Faults)
    returns (client: string, stored: Option<string>, size: nat, ghost end: nat)
    requires AllValid(chunks)
    ensures FirstEnd(limit, chunks, faults, end)
    ensures client == Concat(chunks[..end]) + if end < |chunks| then LastPart(limit, chunks, faults, end) else ""
    ensures stored.Some? <==>
            && Fits(limit, |Concat(chunks)|) && end == |chunks|
            && !faults.noTemp && !faults.bodyErr && !faults.closeErr && !faults.renameErr
    ensures stored.Some? ==> stored.value == Concat(chunks) == client && size == |Concat(chunks)|
  {
    client, stored, size := "", None, 0;
    var counting := new CountWriter(limit);
    var copyErr := false;
    var i := 0;
    assert chunks[..0] == [] && Concat([]) == "";
    hide Concat;
    while i < |chunks|
      invariant 0 <= i <= |chunks| && fresh(counting) && counting.limit == limit && !copyErr
      invariant client == Concat(chunks[..i]) && size == |client|
      invariant !faults.noTemp ==> counting.exceeded == !Fits(limit, |Concat(chunks[..i])|)
      invariant !faults.noTemp && !counting.exceeded ==> counting.written == |client| && counting.file == client
      invariant forall k :: 0 <= k < i ==> !Ends(limit, chunks, faults, k)
    {
      ConcatGrows(chunks, i);
      var offered, err := chunks[i].bytes, false;
      if !faults.noTemp {
        var n;
        n, err := counting.Write(chunks[i]);
        offered := chunks[i].bytes[..n];
      }
      if i == faults.clientStops {
        client := client + Taken(offered, faults.clientTakes);
        size := |client|;
        copyErr := true;
        break;
      }
      client := client + offered;
      size := size + |offered|;
      if err {
        copyErr := true;
        break;
      }
      assert offered == chunks[i].bytes;
      i := i + 1;
    }
    end := i;
    if end == |chunks| {
      assert chunks[..end] == chunks;
    }
    copyErr := copyErr || faults.bodyErr;
    if faults.noTemp || counting.exceeded || copyErr || faults.closeErr || faults.renameErr {
      return;
    }
    stored := Some(counting.file);
  }
}
