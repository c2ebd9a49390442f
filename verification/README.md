# proxykit: a verified model

proxykit is a set of caching proxies (npm, apt, Git, S3) over one disk cache. This project models its
four hard cores in Dafny and proves what they promise:

* the **disk cache engine**: entries, byte counter, metadata table and files kept in step; eviction;
  recovery after a stop at any point; request coalescing (`CacheModel`, `DiskCache`, `Like`, `Coalesce`);
* the **S3 acceleration proxy**: two independently evictable records per object, freshness,
  revalidation, serving stale, invalidation, cache keys, lifetimes, ranges, flights (`S3Object`,
  `S3Flight`, `S3Key`, `S3Ttl`, `S3Range`);
* the **Git proxy**: pkt-line scanning, upload-pack classification, pack flights (`PktLine`,
  `UploadPack`, `PackFlight`), and, with S3, the size-limited writers (`Streaming`);
* **glob compilation**: a compiler by text rewriting into regular expressions (`Glob`).

`Numbers` and `Text` hold the pieces of the Go standard library the model needs (integer parsing,
splitting, joining, sorting, ASCII case). `dafny verify dfyconfig.toml` checks everything.

## How to read it

**Disk cache.** `DiskCache.Cache` is a class with the fields of the Go struct. `Valid()` says: the
counter is the sum of entry sizes plus the unkeyed bytes found at recovery; every entry has a file of its
own holding the bytes last stored under its key; every row belongs to an entry and says the same, with an
access time no later, except for the keys in `dirty`; nothing is dated after the clock; and the trace of
durable states is safe. While the table is open an operation adds to `dirty` only keys whose row write
fails (`badRows`). `Lacking()` are the entries without a row; only a store whose row write fails and the
prefix delete add to it, the latter only the `Bystanders`: entries that stay although the LIKE statement
deletes their rows. The trace (`points`) starts at the state found on disk and records each atomic
durable change (a file written, removed or renamed; one statement on the table); `Traced` says that
consecutive points differ by exactly one such change and that the last one is the present, so a stop of
the process can only happen at a recorded point. At each of them every file at a final path is in
`whole`, the keys with all of the bytes once given for them; `moved` are the keys whose row still names
another file than the last store wrote, because the row write failed, and `sites` the paths that rows
found or stores used. Every point is one that a start can begin from (`Restart`), also the points of a
start. What the operating system refuses to delete, and which row writes fail, are fields the environment
may change between operations. SHA-256 is taken to be injective, so file names are written `Final(key)`
or `Streams(key)`; the clock does not run backwards; rename is atomic.

**Protocols.** `Coalesce`, `S3Flight` and `PackFlight` are state machines over the atomic steps of any
number of concurrent callers; results hold after every schedule.

**S3 object.** `S3Object.Entry` is the pair of records changed in place; its methods equal functions on
values, and the theorems are about every run of requests, mutations, evictions, stops and upstream
changes. That the two records belong together is shown whatever the upstream and the clients answer and
send; that what is served is the upstream's content is shown for an upstream that answers truthfully and
whose validators, where present, name one content for ever.

**Text.** A byte is modelled as a `char`; statements hold for all strings.

**Where code and description part.** The model follows the code, and these are proved with the exact
condition under which the description holds, or with a concrete input:

* the v1 parser's comments say a fresh clone has no shallow lines; lines before the first flush are
  ignored (`UploadPack.DocumentedMeaningV1`, `UploadPack.ShallowBeforeFlushIgnored`);
* the SQL prefix delete also removes rows of entries that stay (`Like.SweepsExactlyThePrefixIff`,
  `Like.SweptIff`);
* a huge max-age wraps around (`S3Ttl.TtlIsCappedMaxAge`, `S3Ttl.LargestMaxAgeIsNegative`);
* an entry that has only a Last-Modified date can be revalidated by the client's own If-None-Match
  (`S3Object.RevalidationIsTrustworthyIff`);
* a body is replaced before its metadata is, so a stop in between can leave a mixed pair, and exactly
  that can (`S3Object.LoadedPairIsCoherentIff`, `S3Object.StopBetweenBodyAndMetadata`);
* a mutation can remove records of other objects and scopes, exactly if names spell keys
  (`S3Key.InvalidatesIff`, `S3Key.RemovesOnlyVariantsIff`);
* cache keys of scopes whose names hold the text of a field mark can coincide, and exactly those
  (`S3Key.KeyNamesItsScopeIff`, `S3Key.BarsCanCollide`);
* a range number that only needs clamping is refused if it exceeds 64 bits
  (`S3Range.SelectsWhatTheStandardSelects`), and what is accepted is a range of the standard exactly
  if it holds no plus sign (`S3Range.AcceptedIsStandardIff`);
* packet lengths are read as signed numbers and have no limit, which makes a difference exactly where a
  sign or a length above 65520 is taken
  (`PktLine.ReadsByTheGrammarIff`, `PktLine.ScansByTheGrammarIff`);
* the pack flights keep fetches for one key apart in every run exactly if no more than two requests
  ask for it (`PackFlight.OneUpstreamIffAtMostTwo`);
* in the Git tee a failing cache file cuts the client's stream short (`Streaming.StreamAndCache`).

## Model

| member | source | states |
|---|---|---|
| Glob.CompiledGlobMeansGlob | internal/glob/glob.go:15-40 | For every pattern compilation succeeds, and the text produced by quoting and two replacements, read as a regular expression and searched unanchored, accepts exactly the hosts of the glob language: `**` one or more characters, `*` one or more that are not dots, everything else itself up to case |
| Glob.DoubledPass | internal/glob/glob.go:18-19 | The `**` pass replaces exactly the quoted pairs of stars; no backslash-star in quoted text straddles two quoted characters |
| Glob.SinglePass | internal/glob/glob.go:20 | The `*` pass on the result replaces exactly the remaining quoted stars |
| Glob.FinalParses | internal/glob/glob.go:22-23 | The final text parses item by item into the pattern's tokens and an end anchor |
| Glob.SingleStarKeepsLabelCount | internal/glob/glob.go:17-20 | Without `**`, a matching host has as many labels as the pattern |
| Glob.StarlessIsComparison | internal/glob/glob.go:15-40 | Without a star, matching is comparison up to case, character by character |
| PktLine.Scanner.Scan | git/pktline.go:31-75 | One call reads exactly the packet at the front of the remaining bytes: a line, the end (remembered), or a fault (recorded), with the position after it |
| PktLine.ReadEncoded | git/pktline.go:31-75 | Reading any cut of an encoded packet: the end below four bytes, a fault inside the payload, else the payload less one trailing newline and the packet's size |
| PktLine.ScanTruncated | git/pktline.go:31-75 | Scanning any truncation of an encoded packet list yields exactly the lines of the packets that are whole, and is malformed exactly if the cut is inside a payload |
| PktLine.ScanUndoesEncode | git/pktline.go:31-75 | Scanning undoes encoding: all lines in order, everything consumed, no error |
| PktLine.CaseOfLengthIgnored | git/pktline.go:46 | Length fields that differ only in the case of their letters are read alike |
| PktLine.LinesAgree | git/pktline.go:31-75 | The first lines depend only on the bytes up to the end of the last of them |
| PktLine.ReadsByTheGrammarIff | git/pktline.go:46-61 | Reading a packet differs from the reading of four unsigned hexadecimal digits up to 65520 exactly if a larger length is taken, or the length field starts with a sign that is taken: minus zero, or plus and three digits that do not say three, nor more than four with nothing behind |
| PktLine.ScansByTheGrammarIff | git/pktline.go:31-75 | A whole stream is scanned as the grammar has it exactly if no line comes from such a packet |
| PktLine.SignedLengths | git/pktline.go:46-61 | Two such packets: "-000" is read as a flush and "+005x" as a line |
| UploadPack.ParseV1 | git/pktline.go:101-151 | The loop over the scanner computes the request that the list of lines stands for, and reports an error exactly if nothing was decided before a malformed packet |
| UploadPack.ParseV2 | git/pktline.go:164-219 | The same for protocol v2, with command and filter |
| UploadPack.FreshV1IsFullClone | git/pktline.go:106-150 | Fresh exactly if after the first empty line a `done` or empty line comes with no line in between that begins with "have ", "shallow " or "deepen" |
| UploadPack.FreshV2IsFullClone | git/pktline.go:170-213 | Fresh exactly if moreover the last command line is command=fetch and no line in between begins with "filter " |
| UploadPack.FieldsOf | git/pktline.go:84-92 | The other fields on spelled-out lines: wants of the right section, shallow exactly if an argument says shallow or deepen, filtered exactly if one says filter, the last command |
| UploadPack.NotFreshAfterBlank | git/pktline.go:123-137 | A deepen, shallow or have line after the first empty one, and for v2 a filter line, makes the request not fresh, whatever stands before and after |
| UploadPack.BytesAfterDecisionIgnored | git/pktline.go:101-219 | Any two bodies that agree up to the end of the deciding packet are classified alike, also when what follows is malformed |
| UploadPack.DocumentedMeaningV1 | git/pktline.go:94-145 | The documented meaning (no shallow line at all) holds exactly if the code says fresh and no shallow or deepen line precedes the first empty line |
| UploadPack.ShallowBeforeFlushIgnored | git/pktline.go:112-122 | A concrete shallow request that is classified as fresh |
| UploadPack.WantIsSecondField | git/pktline.go:117-122 | A want is the hash alone, whatever capabilities follow it |
| UploadPack.OtherLinesWantNothing | git/pktline.go:117-122 | A line that does not begin with "want ", or has nothing behind it, adds no want |
| PackFlight.ClosedOnceNobodyAbandoned | git/handler.go:271-293 | In every run a channel is closed at most once and only by its maker, exactly once if the maker went upstream; nobody waits on an open channel whose owner has gone |
| PackFlight.OneUpstreamIffAtMostTwo | git/handler.go:256-310 | Whatever fetches do and whatever is evicted, at most one request for a key is upstream at any time in every run exactly if no more than two requests ask for that key |
| PackFlight.OneUpstreamWhenStored | git/handler.go:256-310 | If every fetch ends cached and nothing is evicted, nobody falls through and at most one fetch per key is in flight |
| PackFlight.FailedFetchLetsTwoUpstream | git/handler.go:286-293 | For any three requests for a key there is a run with one failed fetch that has two of them upstream together |
| PackFlight.NobodyIsStuck | git/handler.go:271-310 | Until all have returned someone can take a step, and every step but an eviction lowers a measure |
| PackFlight.ReturnedMeansAnswered | git/handler.go:259-310 | Whoever has returned was served from the cache or went upstream |
| PackFlight.CachedMeansNotFetched | git/handler.go:259-269 | A request that begins while its pack is cached never goes upstream, whatever the others do, unless the pack is evicted |
| Streaming.LimitedCacheWriter.Write | s3/server.go:630-645 | One write, with its new state, always reporting full success |
| Streaming.LimitedVerdict | s3/server.go:622-645 | However the body is split and the file behaves, the writer ends neither exceeded nor failed exactly if every write was complete and the body fits, and then the file is the whole body and `written` its length |
| Streaming.NothingAfterExceeding | s3/server.go:630-637 | Once the limit is exceeded nothing more is written, however short the writes are |
| Streaming.ExceededMeansTooLong | s3/server.go:630-637 | With a sound file, exceeded holds exactly if a positive limit is below the total, for every split |
| Streaming.StreamAndStore | s3/server.go:577-620 | The client receives every chunk up to the one it refuses, and its part of that, whatever happens on the cache side; the body record changes exactly if the whole body was copied and fits, and then it is gone if the rename or the metadata fails, and otherwise the whole body with metadata saying its length |
| Streaming.CountWriter.Write | git/handler.go:608-626 | One write of the Git counter and what the tee sees of it |
| Streaming.StreamAndCache | git/handler.go:414-504 | The copy ends at the first chunk that the client refuses or the cache file fails to take; what the client then has; a pack is registered exactly if there is no such chunk, nothing else failed and it fits, and it is the whole body with its size, all of which the client has |
| S3Range.ParseRange | s3/entry.go:136-169 | Whatever is accepted lies inside the object: 0 <= start <= end < total |
| S3Range.SelectsWhatTheStandardSelects | s3/entry.go:136-169 | For every single range of section 14.1.2 of RFC 9110 the selection is the standard's, except exactly when a number to be clamped exceeds 64 bits, which is refused |
| S3Range.ServesWhatTheStandardSelects | s3/entry.go:93-117 | No range gives the whole body; a range of the standard gives exactly the selected bytes, labelled with their positions and the length; what selects nothing or is not accepted gives that length |
| S3Range.RangesReassemble | s3/entry.go:93-109 | Ranges that tile the object, written in decimal, served and joined, give back the body |
| S3Range.AcceptedIsStandardIff | s3/entry.go:136-169 | An accepted text is a single range of the standard exactly if it holds no plus sign, and then the selection is the standard's |
| S3Range.PlusSignAccepted | s3/entry.go:154-161 | An accepted text outside the grammar |
| S3Key.EncodeSortedQuery | s3/server.go:384-403 | The loops compute the canonical encoding, in whatever order the map yields its keys |
| S3Key.EscapeInjective | s3/server.go:395-399 | Percent encoding loses nothing |
| S3Key.UnescapeUndoesEscape | s3/server.go:395-399 | An independent decoder reads back what was escaped |
| S3Key.EncodedQueryCanonical | s3/server.go:384-403 | Two queries encode alike exactly if every key has the same multiset of values |
| S3Key.KeyCanonical | s3/server.go:365-382 | Keys are equal exactly if the scopes contribute the same text, the hosts agree up to case, the paths agree, and every parameter whose name does not begin with "x-amz-" or "x-goog-", in any case, has the same values, each as often |
| S3Key.SigningDoesNotMatter | s3/server.go:367-372 | Adding, changing or removing a parameter with such a name leaves the key as it is |
| S3Key.OthersMatter | s3/server.go:366-373 | Targets that differ in any other parameter have different keys in all scopes |
| S3Key.VersionsMatter | s3/server.go:366-373 | In particular two versions of an object never share a key |
| S3Key.KeyNamesItsScopeIff | s3/server.go:365-382 | No other scope shares a key with this one, whatever is asked for, exactly if tenant and subject do not hold the text that introduces the subject field, nor subject and auth scope that of the auth field (but for one at the very end) |
| S3Key.KeyInjective | s3/server.go:365-382 | For such a scope, equal keys mean equal scopes and the same object |
| S3Key.BarsCanCollide | s3/server.go:374-381 | Two anonymous identities with bars in their names that share the key of every object |
| S3Key.InvalidatesEveryVariant | s3/server.go:671-678 | For every scope, a mutation removes the metadata and body records of all query variants of the object |
| S3Key.InvalidatesExactlyTheVariants | s3/server.go:671-678 | Among scopes without a vertical bar it removes all and only those |
| S3Key.InvalidatesIff | s3/server.go:671-678 | If no name of the scope holds the text that introduces the query, a record of any scope goes exactly if it is a query variant of the object under the same scope text, or the other scope's own names spell this scope and object up to the query |
| S3Key.RemovesOnlyVariantsIff | s3/server.go:671-678 | Within a scope only query variants of the object go exactly if no name of the scope holds that text; otherwise every object of the scope goes |
| S3Key.Imitator | s3/server.go:671-678 | For every object there is another scope all of whose objects go with it |
| S3Ttl.TtlBounded | s3/server.go:526-538 | No lifetime exceeds the longest configured one, also when the 64-bit product wraps |
| S3Ttl.TtlIsCappedMaxAge | s3/server.go:526-533 | The lifetime is the capped max-age exactly if the seconds fit or the wrapped product reaches the cap |
| S3Ttl.LargestMaxAgeIsNegative | s3/server.go:526-538 | The header max-age=9223372036854775807 gives a lifetime of minus one second, whatever the configuration |
| S3Ttl.MaxAgeFound | s3/server.go:540-550 | The first max-age directive is found anywhere in the list, in any case, with white space |
| S3Ttl.LifetimeOf | s3/server.go:526-550 | The lifetime is the seconds of the first max-age directive, capped: spelled out for headers with any parts before and after, the name in any case and any white space |
| S3Ttl.LifetimeWithoutMaxAge | s3/server.go:534-537 | Without such a directive it is the versioned lifetime for a request by version and the other one otherwise |
| S3Ttl.UnusableMaxAge | s3/server.go:546-547 | A first directive that is negative or does not fit counts as absent, also if others follow |
| Text.SpacesAre | s3/server.go:542 | White space is the space, tab, newline, vertical tab, form feed and carriage return |
| S3Flight.OneUpstreamPerKey | s3/server.go:414-442 | In every run at most one request per key is between storing and deleting a flight, so at most one is upstream |
| S3Flight.ClosedOnceDeletedByOwner | s3/server.go:428-431 | Delete removes the deleter's own flight; a channel is closed only by its maker, never twice, and is closed once the maker lets go |
| S3Flight.NoDeadlock | s3/server.go:414-442 | While anyone has not returned some request can take a step that is not a spin, and a request spins only while the owner of the closed flight is about to delete it |
| S3Flight.ReturnedMeansAnswered | s3/server.go:405-443 | Whoever has returned was served from the cache or went upstream |
| S3Flight.EveryRequestCanReturn | s3/server.go:405-443 | A run of n requests has at most 2n(6n+1)+6n steps that are not spins, and one is possible until all have returned |
| S3Object.Entry.LoadMetadata | s3/entry.go:31-55 | Returns the metadata exactly if the body it promises is there, and removes it otherwise |
| S3Object.Entry.StreamIn | s3/server.go:577-620 | The records after storing a streamed body, for every place it can fail; what metadata promises about its body stays true unless the process stops between the two |
| S3Object.Entry.Fetch | s3/server.go:449-509 | The records and the answer of an upstream round trip, for every reply; a truthful one keeps the invariant and the staleness bound |
| S3Object.Entry.Serve | s3/server.go:405-443 | The records and the answer of one request; if the upstream is truthful the invariant is kept and the served body meets the bound; whatever it answers, metadata and body go on matching unless the process stops between the two |
| S3Object.EveryServedBodyIsBounded | s3/server.go:405-513 | After every run a body served from the cache was the upstream's content at a time since the last successful mutation, and that time is within the longest lifetime (plus the stale allowance); REVALIDATED means now; its recorded size is its length |
| S3Object.LoadedPairIsCoherentIff | s3/entry.go:31-69 | After any events at all, with any replies, validators and failures: loading misses exactly if the entry is absent or half present, and then no metadata is left; otherwise the recorded size is that of the last response stored, and the body is that response exactly unless the process stopped while storing another body, between the two records, and nothing has been removed or replaced since |
| S3Object.LoadedPairIsCoherent | s3/server.go:449-509 | Without a stop there, a loaded body is the last response stored, with its size |
| S3Object.LoadedPairIsTheUpstreams | s3/server.go:449-509 | If the upstream is truthful, a loaded body is what it held when the metadata was last validated |
| S3Object.FetchIsSafe | s3/server.go:449-509 | Each reply keeps the records coherent and bounded |
| S3Object.FreshIsServed | s3/server.go:406-412 | A GET that finds a fresh entry with its body is a hit with that body, whatever the upstream would answer, and leaves the entry |
| S3Object.UnreadableIsFetched | s3/server.go:408-411 | If the file cannot be opened the entry goes and nothing is served from it |
| S3Object.StaleIsServedIff | s3/server.go:471-479 | A stale entry is served on an unreachable upstream exactly until the allowance is over |
| S3Object.ConfirmedIsServed | s3/server.go:481-491 | An entry with a validator is served on a 304, and is fresh again for the lifetime the 304 gives, with its validators |
| S3Object.OtherRepliesPass | s3/server.go:481-498 | A 304 without a validator of the entry passes through, 404 and 410 remove the entry, other statuses leave it |
| S3Object.HoldersAreTold | s3/entry.go:76-79 | A client that names the entry's ETag, or any, gets 304 |
| S3Object.HeadersAlone | s3/server.go:445-447 | A HEAD is answered from fresh metadata without a body, a GET never |
| S3Object.WhatIsStored | s3/server.go:495-509 | A complete answer to a range request, with a cookie, or with no-store (or private, where respected) in any case leaves both records; otherwise the records are exactly the response, fresh for its lifetime, and a HEAD leaves metadata alone |
| S3Object.StoredIsHitUntilItsLifetimeEnds | s3/server.go:405-509 | After a stored GET every GET within its lifetime is a hit with exactly that content, whatever happens in between, as long as nothing is removed |
| S3Object.RevalidatedIsCurrent | s3/server.go:455-491 | An honest 304 to the proxy's own validator means the content is unchanged |
| S3Object.RevalidationIsTrustworthyIff | s3/server.go:455-464 | A 304 can be trusted, whatever the upstream holds, exactly if the entry has an ETag or the client sent no usable If-None-Match |
| S3Object.StopBetweenBodyAndMetadata | s3/server.go:608-618 | A run with such a stop, after which the old size is loaded with the new content |
| Coalesce.OneFetchPerKey | cache/cache.go:265-289 | In every run at most one caller per key is between storing and deleting a call, so at most one fetch per key runs |
| Coalesce.CallersAreToldHowTheFetchEnded | cache/cache.go:251-317 | In terms of the steps of the run alone: a returned caller was a hit and has that file, or made or joined a call whose one fetch ended, and has the stored file, a failure to open it, the fetch's error or the panic's |
| Coalesce.JoinersReceiveLeadersResult | cache/cache.go:269-298 | Whoever joins a call, also between Done and Delete, returns after Done, with that call's path or error |
| Coalesce.ResultIsFinal | cache/cache.go:289 | A call's result never changes |
| Coalesce.DoneOnceDeleteOwn | cache/cache.go:284-287 | Done is called at most once per call, by its maker, and Delete removes the deleter's own call |
| Coalesce.NoDeadlock | cache/cache.go:265-298 | While anyone has not returned someone can move |
| Coalesce.EveryoneReturns | cache/cache.go:251-317 | At most six steps per caller; a run that cannot go on has left nobody waiting, also when fetches panic |
| Like.SweepsExactlyThePrefixIff | cache/cache.go:356-358 | The LIKE statement deletes exactly the rows below a prefix, whatever keys there are, if and only if the prefix holds no letter and no wild card |
| Like.SweptIff | cache/cache.go:356-358 | For a prefix without a per cent sign, such as those of the Git proxy: a key is swept exactly if it agrees with the prefix up to ASCII case, with an underscore for any character |
| Like.PrefixIsSwept | cache/cache.go:356-358 | No row below the prefix survives |
| CacheModel.EvictionDeterministic | cache/cache.go:524-540 | If no two entries are of the same age an eviction has one outcome, however the map is listed and sorted |
| CacheModel.NewestSurvivesIffItFits | cache/cache.go:544-568 | LRU eviction spares the newest entry exactly if it fits beside the unkeyed bytes, and otherwise empties the cache |
| CacheModel.EvictionMeetsLimit | cache/cache.go:506-568 | Afterwards the size is within the limit unless nothing is left, and nothing kept is older than anything removed |
| CacheModel.RecoveryFindsCompleteFiles | cache/cache.go:572-656 | From a safe durable state every recovered key has a whole file of its own with its real size; and the last one stored, unless its row was left behind |
| DiskCache.Cache.Get | cache/cache.go:127-152 | A hit exactly if there is an unexpired entry; the path then holds the bytes last stored under the key; only the access time changes, and the row's only when the last access is more than a minute old |
| DiskCache.Cache.WriteFile | cache/cache.go:158-194 | The temporary file, its growth and the rename; on a fault nothing is left but a file that cannot be removed |
| DiskCache.Cache.Put | cache/cache.go:158-245 | On a fault nothing is stored; else the whole data is stored and an exact LRU run follows; the newest key stays exactly if it fits, and otherwise the cache is empty; the expiry is the caller's time to live, none, or the cache's own; the files and rows of what was evicted go; the row is in step if its write succeeds; the invariant and the trace are kept |
| DiskCache.Cache.Stream | cache/cache.go:766-808 | The same for a file written and renamed by the caller and then registered |
| DiskCache.PutThenGet | cache/cache.go:127-205 | After a store that is not evicted at once the key is found, with its bytes, exactly until its time to live is over: the caller's if positive, never if negative, else the cache's own |
| DiskCache.StreamThenGet | cache/cache.go:766-771 | The same for streamed files, with the cache's own time to live |
| DiskCache.PutRestartGet | cache/cache.go:197-245 | The same over a restart, if the row could be written |
| DiskCache.Cache.RemoveLocked | cache/cache.go:330-341 | File, counter, entry and row of one key, and nothing else |
| DiskCache.Cache.Remove | cache/cache.go:320-327 | Only the given key goes, with its file and its row |
| DiskCache.Cache.RemoveMatching | cache/cache.go:367-381 | Exactly the matching entries go, with their files and rows; the count is right |
| DiskCache.Cache.RemoveByPrefix | cache/cache.go:346-364 | Exactly the entries below the prefix go, with their files, and every row that is LIKE it; no row below it remains; only bystanders are left without their row, and every row that is left goes on belonging to an entry |
| DiskCache.Cache.Clear | cache/cache.go:392-424 | Everything is forgotten, every removable file goes, the table among them at any moment, and the counts are returned; rows that stay have no entry |
| DiskCache.Cache.SortOldestFirst | cache/cache.go:525-531 | A listing of all entries, oldest first |
| DiskCache.Cache.EvictUntil | cache/cache.go:533-567 | Removes exactly a shortest prefix of such a listing that meets the limit, with the files and rows of exactly these entries |
| DiskCache.Cache.EvictExpired | cache/cache.go:493-504 | Exactly the expired entries go, with their files and rows |
| DiskCache.Cache.SoftEvictByAge | cache/cache.go:510-541 | A run by creation time down to the soft limit, if enabled |
| DiskCache.Cache.EvictLRU | cache/cache.go:544-568 | A run by access time down to the size limit, if there is one |
| DiskCache.Cache.Tick | cache/cache.go:482-487 | No entry expired at its start is left, both limits are met unless nothing is left, the files and rows of what was removed go and no others, and each pass removed exactly a shortest prefix of its own order, so nothing kept is older than anything it removed |
| DiskCache.Cache.Recover | cache/cache.go:572-703 | From any safe durable state: the entries are exactly the unexpired rows whose file is there, with real sizes and whole contents, and keep their rows; the counter adds exactly the bytes of scanned files no row names, and is the size of all of them if the entries came from Put; temporary files and those of expired rows go and no others; a key is out of step only if a row could not be deleted or has another size than its file; a stop on the way leaves the same history to recover |
| DiskCache.Cache.constructor | cache/cache.go:93-123 | A cache started on any safe durable state, with a clock that has not gone back, is valid, and restored as Recover says |
| DiskCache.Restart | cache/cache.go:93-123 | After a stop at any durable state of any operation on a valid cache, a start among them, the next process is valid and restored, and every key it has maps to one whole file of its real size, with what was last stored or being stored, unless its row was left behind |
| DiskCache.Cache.RowsBelongToEntries | cache/cache.go:221-236 | In a valid cache every row but those whose last write failed belongs to an entry with equal path, size and expiry and an access time no later; if no entry lacks its row the keys are the same |
| DiskCache.Cache.EntriesComeBack | cache/cache.go:592-632 | A restart between operations finds every entry that has not expired and whose row was written, with its size and expiry, and of such keys nothing else |
| DiskCache.Cache.OnePlaceMeansNoneMoved | cache/cache.go:766-808 | In a cache that stores every key at one path, as the Git and S3 proxies do, no row is left behind |
| DiskCache.MovedKeyComesBack | cache/cache.go:207-236 | A run in which a key stored at two paths, the second time without its row, comes back with the old bytes |
| DiskCache.Cache.FilesAreDistinct | cache/cache.go:330-341 | In a valid cache no two entries share a file, so removing one never takes another's |
| DiskCache.StopDuringStoreRecovers | cache/cache.go:158-245 | A stop at any durable state within a store leaves every recovered key, without exception, with one whole file of its real size; and it holds the last finished bytes, or for the key in progress the new ones, unless its row was left behind by a failed write |
| DiskCache.StopDuringRemovalRecovers | cache/cache.go:330-341 | The same for a stop within a removal, an eviction or Clear: whole files always, and the bytes last stored |
| DiskCache.StopDuringStartRecovers | cache/cache.go:572-703 | The same for a stop within a start: what the process before had last stored, or was storing when it stopped |
| DiskCache.StopRecovers | cache/cache.go:158-424 | Every durable state of every operation is safe to start from, and what a start then finds |
| DiskCache.RecoveryConservesBytes | cache/cache.go:658-696 | When all entries came from Put, entry sizes and unnamed bytes add up to the size of all finished files in the first level of subdirectories |

## Left out

- HTTP servers, clients, TLS, logging, metrics, the smoke binary and scripts: input and output only.
- SigV4 signing, credential resolution, gzip, JSON and SQLite internals: the metadata file is taken to
  be read back as written, and the table is a map whose statements are atomic.
- `ParseSize`, `DefaultMaxSize` and the soft eviction percentage: floating point; the soft limit is any integer.
- The apt allowlist, header filtering, gitconfig generation, configuration checks, npm paths: easy members.
- 64-bit overflow of the cache's byte counter: sizes are unbounded integers there.
- Two operations on one cache at a time: Put writes and renames outside the mutex, so that an entry has
  its file is shown for one operation at a time; GetOrFetch's interleavings are modelled without the cache.
- External deletion of cached files, and failures of `ReadDir`, `Stat` or a row scan during recovery.
- DiskCache.StopDuringStoreRecovers: that the bytes are the last stored is not claimed of a key in
  `moved`: its row names the whole file of an earlier store, and no later row write has succeeded.
- The access time in the table has no 60-second bound: it is only shown not to be ahead of memory.
- Directories below `streams` are counted as the operating system reports them (`streamDirs`), and
  temporary files there are not cleaned, as in the source.
- S3Object.EveryServedBodyIsBounded: a request is one step, at one instant; a GET in flight during a
  mutation, a body replaced between load and open, and a stop that leaves a mixed pair are outside it. ETags are compared exactly, without
  the weak prefix, and If-Modified-Since by equality. The served bytes are the whole body; ranges of it
  are the subject of `S3Range`.
- Contents of a 304 sent to the client, and response headers other than the validators.
- A pack hit is not claimed to equal what the upstream would answer: the key leaves out the wants.
- Host names are folded by ASCII case; white space and letter case in header fields are ASCII.
- Glob.CompiledGlobMeansGlob: patterns are valid text; case folding is any relation between characters.
- UploadPack: white space in `strings.Fields` is ASCII, and the scanner reads from memory, so there is
  no reader error besides the end of the input.
- S3Key.InvalidatesExactlyTheVariants: that nothing else goes does not hold of scopes with a vertical bar;
  for those the exact condition is in S3Key.InvalidatesIff and S3Key.RemovesOnlyVariantsIff.
- S3Key.KeyNamesItsScopeIff: that configured credential scopes are trimmed of white space is not used.
- `runtime.Goexit` inside a fetch, and panics outside it.
