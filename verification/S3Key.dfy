/** The cache key of an S3 object request and the invalidation that a mutation performs
    (s3/server.go). Strings are byte strings; EscapedPath and QueryEscape produce ASCII. */
module S3Key {
  import opened Numbers
  import opened Text

  /** Who asks: an identity and the scope of the credentials, which is never empty ("anonymous", a
      hash, or a configured name). */
  datatype Scope = Scope(tenant: string, subject: string, auth: string)
  {
    predicate Valid() { auth != "" }
  }

  /** A resolved target: its host, its escaped path and its parsed query. */
  datatype Target = Target(host: string, path: string, query: map<string, seq<string>>)
  {
    /** Parsing a query yields at least one value for every key it lists, EscapedPath encodes a
        vertical bar, and a host name has none. */
    ghost predicate Valid() {
      '|' !in host && '|' !in path && ValidQuery(query)
    }
  }

  ghost predicate IsBytes(s: string) {
    forall i :: 0 <= i < |s| ==> s[i] < '\U{0100}'
  }

  ghost predicate ValidQuery(q: map<string, seq<string>>) {
    forall k | k in q :: IsBytes(k) && q[k] != [] && forall i :: 0 <= i < |q[k]| ==> IsBytes(q[k][i])
  }

  // ----- url.QueryEscape -----

  predicate Unreserved(c: char) {
    'a' <= c <= 'z' || 'A' <= c <= 'Z' || '0' <= c <= '9' || c == '-' || c == '_' || c == '.' || c == '~'
  }

  function UpperHex(d: nat): char
    requires d < 16
  {
    if d < 10 then '0' + d as char else 'A' + (d - 10) as char
  }

  function EscapeByte(c: char): (r: string)
    ensures r != ""
  {
    if Unreserved(c) then [c]
    else if c == ' ' then "+"
    else ['%', UpperHex(c as nat / 16 % 16), UpperHex(c as nat % 16)]
  }

  function QueryEscape(s: string): string {
    if s == "" then "" else EscapeByte(s[0]) + QueryEscape(s[1..])
  }

  /** url.QueryUnescape, independently: a plus is a space and a per cent sign is followed by two
      hexadecimal digits in either case. */
  function QueryUnescape(s: string): Option<string>
    decreases |s|
  {
    if s == "" then Some("")
    else if s[0] == '%' then
      if |s| < 3 then None
      else
        var h, l, rest := DigitValue(s[1]), DigitValue(s[2]), QueryUnescape(s[3..]);
        if h.Some? && l.Some? && h.value < 16 && l.value < 16 && rest.Some?
        then Some([(16 * h.value + l.value) as char] + rest.value) else None
    else
      var rest := QueryUnescape(s[1..]);
      if rest.Some? then Some([if s[0] == '+' then ' ' else s[0]] + rest.value) else None
  }

  lemma UpperHexIsDigit(d: nat)
    requires d < 16
    ensures DigitValue(UpperHex(d)) == Some(d)
  {
  }

  lemma PairIsRead(h: char, l: char, x: nat, y: nat, rest: string)
    requires DigitValue(h) == Some(x) && DigitValue(l) == Some(y) && x < 16 && y < 16 && QueryUnescape(rest).Some?
    ensures QueryUnescape(['%', h, l] + rest) == Some([(16 * x + y) as char] + QueryUnescape(rest).value)
  {
    assert (['%', h, l] + rest)[3..] == rest;
  }

  lemma PlainIsRead(c: char, rest: string)
    requires c != '%' && QueryUnescape(rest).Some?
    ensures QueryUnescape([c] + rest) == Some([if c == '+' then ' ' else c] + QueryUnescape(rest).value)
  {
    assert ([c] + rest)[1..] == rest;
  }

  lemma ByteIsRead(c: char, rest: string)
    requires c < '\U{0100}' && QueryUnescape(rest).Some?
    ensures QueryUnescape(EscapeByte(c) + rest) == Some([c] + QueryUnescape(rest).value)
  {
    hide QueryUnescape, UpperHex;
    var n := c as nat;
    if |EscapeByte(c)| == 3 {
      UpperHexIsDigit(n / 16 % 16);
      UpperHexIsDigit(n % 16);
      Halves(n);
      PairIsRead(UpperHex(n / 16 % 16), UpperHex(n % 16), n / 16 % 16, n % 16, rest);
    } else {
      PlainIsRead(EscapeByte(c)[0], rest);
    }
  }

  lemma Halves(n: nat)
    requires n < 256
    ensures 16 * (n / 16 % 16) + n % 16 == n
  {
  }

  /** What is escaped is read back. */
  lemma {:induction false} UnescapeUndoesEscape(s: string)
    requires IsBytes(s)
    ensures QueryUnescape(QueryEscape(s)) == Some(s)
  {
    hide EscapeByte, QueryUnescape;
    if s == "" {
      NothingIsRead();
    } else {
      UnescapeUndoesEscape(s[1..]);
      ByteIsRead(s[0], QueryEscape(s[1..]));
      assert s == [s[0]] + s[1..];
    }
  }

  lemma NothingIsRead()
    ensures QueryUnescape("") == Some("")
  {
  }

  /** Percent encoding loses nothing. */
  lemma EscapeInjective(a: string, b: string)
    requires IsBytes(a) && IsBytes(b) && QueryEscape(a) == QueryEscape(b)
    ensures a == b
  {
    UnescapeUndoesEscape(a);
    UnescapeUndoesEscape(b);
  }

  predicate IsSeparator(c: char) { c == '&' || c == '=' || c == '|' }

  lemma {:induction false} EscapeHasNoSeparator(s: string)
    ensures forall i :: 0 <= i < |QueryEscape(s)| ==> !IsSeparator(QueryEscape(s)[i])
  {
    if s != "" { EscapeHasNoSeparator(s[1..]); }
  }

  // ----- encodeSortedQuery -----

  function PairText(key: string, value: string): string {
    QueryEscape(key) + "=" + QueryEscape(value)
  }

  /** The pairs of one key, given its values in order. A key without values stands alone. */
  function PairsFrom(key: string, values: seq<string>): seq<string> {
    if values == [] then [] else PairsFrom(key, values[..|values| - 1]) + [PairText(key, values[|values| - 1])]
  }

  function PairsOf(key: string, values: seq<string>): seq<string> {
    if values == [] then [QueryEscape(key)] else PairsFrom(key, Sort(values))
  }

  function AllPairs(keys: seq<string>, q: map<string, seq<string>>): seq<string>
    requires forall k | k in keys :: k in q
  {
    if keys == [] then [] else AllPairs(keys[..|keys| - 1], q) + PairsOf(keys[|keys| - 1], q[keys[|keys| - 1]])
  }

  ghost function Listing(s: set<string>): (r: seq<string>)
    ensures multiset(r) == multiset(s)
  {
    if s == {} then [] else
      var x :| x in s;
      assert multiset(s) == multiset(s - {x}) + multiset{x};
      [x] + Listing(s - {x})
  }

  ghost function SortedKeys(q: map<string, seq<string>>): (r: seq<string>)
    ensures multiset(r) == multiset(q.Keys)
    ensures forall k :: k in r <==> k in q
  {
    var r := Sort(Listing(q.Keys));
    assert forall k :: k in r <==> k in multiset(r);
    r
  }

  ghost function EncodedQuery(q: map<string, seq<string>>): string {
    Join(AllPairs(SortedKeys(q), q), '&')
  }

  /** The keys, in whatever order the map yields them. */
  method CollectKeys(values: map<string, seq<string>>) returns (keys: seq<string>)
    ensures multiset(keys) == multiset(values.Keys)
  {
    keys := [];
    var rest := values.Keys;
    while rest != {}
      invariant rest <= values.Keys && multiset(keys) == multiset(values.Keys - rest)
      decreases rest
    {
      var key :| key in rest;
      assert multiset(values.Keys - (rest - {key})) == multiset(values.Keys - rest) + multiset{key};
      keys := keys + [key];
      rest := rest - {key};
    }
    assert values.Keys - rest == values.Keys;
  }

  method EncodePairs(key: string, values: seq<string>) returns (pairs: seq<string>)
    ensures pairs == PairsOf(key, values)
  {
    var vals := Sort(values);
    assert |multiset(vals)| == |vals| && |multiset(values)| == |values|;
    if |vals| == 0 {
      return [QueryEscape(key)];
    }
    pairs := [];
    for j := 0 to |vals|
      invariant pairs == PairsFrom(key, vals[..j])
    {
      assert vals[..j + 1][..j] == vals[..j];
      pairs := pairs + [QueryEscape(key) + "=" + QueryEscape(vals[j])];
    }
    assert vals[..|vals|] == vals;
  }

  lemma KeysSorted(keys: seq<string>, q: map<string, seq<string>>)
    requires multiset(keys) == multiset(q.Keys)
    ensures Sort(keys) == SortedKeys(q)
  {
    SortCanonical(keys, Listing(q.Keys));
  }

  method EncodeSortedQuery(values: map<string, seq<string>>) returns (text: string)
    ensures text == EncodedQuery(values)
  {
    hide Sort, Join, PairsOf, Listing;
    var keys := CollectKeys(values);
    KeysSorted(keys, values);
    keys := Sort(keys);
    var pairs: seq<string> := [];
    assert forall i :: 0 <= i < |keys| ==> keys[i] in SortedKeys(values);
    for i := 0 to |keys|
      invariant forall k :: k in keys[..i] ==> k in values
      invariant pairs == AllPairs(keys[..i], values)
    {
      assert keys[..i + 1][..i] == keys[..i];
      var more := EncodePairs(keys[i], values[keys[i]]);
      pairs := pairs + more;
    }
    assert keys[..|keys|] == keys;
    return Join(pairs, '&');
  }

  // ----- The key -----

  predicate IsSigning(key: string) {
    "x-amz-" <= Lower(key) || "x-goog-" <= Lower(key)
  }

  /** The query without the parameters that only sign the request. */
  function StableQuery(q: map<string, seq<string>>): map<string, seq<string>> {
    map k | k in q && !IsSigning(k) :: q[k]
  }

  function ScopeFields(s: Scope): seq<string> {
    ["tenant=" + s.tenant, "subject=" + s.subject, "auth=" + s.auth]
  }

  ghost function QueryField(t: Target): string {
    "query=" + EncodedQuery(StableQuery(t.query))
  }

  function ObjectFields(t: Target): seq<string> {
    ["host=" + Lower(t.host), "path=" + t.path]
  }

  ghost function CacheKey(t: Target, s: Scope): string {
    Join(ScopeFields(s) + ObjectFields(t) + [QueryField(t)], '|')
  }

  /** What a scope contributes to the key. */
  function ScopeText(s: Scope): string {
    Join(ScopeFields(s), '|')
  }

  /** The name of a parameter that only signs the request. */
  predicate Signs(name: string) {
    || (|name| >= 6 && SameUpToCase(name[..6], "x-amz-"))
    || (|name| >= 7 && SameUpToCase(name[..7], "x-goog-"))
  }

  /** The same object: one host up to case, one path, and for every parameter that does not sign the
      same values, each as often. */
  ghost predicate SameObject(a: Target, b: Target) {
    && SameUpToCase(a.host, b.host) && a.path == b.path
    && forall name | !Signs(name) ::
         (name in a.query <==> name in b.query) &&
         (name in a.query && name in b.query ==> multiset(a.query[name]) == multiset(b.query[name]))
  }

  ghost predicate SameQuery(q: map<string, seq<string>>, r: map<string, seq<string>>) {
    q.Keys == r.Keys && forall k | k in q :: multiset(q[k]) == multiset(r[k])
  }

  lemma IsSigningIff(name: string)
    ensures IsSigning(name) <==> Signs(name)
  {
    hide SameUpToCase;
    assert Lower("x-amz-") == "x-amz-" && Lower("x-goog-") == "x-goog-" by { LowerWords(); }
    BeginsIff("x-amz-", name);
    BeginsIff("x-goog-", name);
  }

  lemma LowerWords()
    ensures Lower("x-amz-") == "x-amz-" && Lower("x-goog-") == "x-goog-"
  {
    hide Lower;
    AlreadyLower("x-amz-");
    AlreadyLower("x-goog-");
  }

  lemma SameObjectIff(a: Target, b: Target)
    ensures SameObject(a, b) <==>
            Lower(a.host) == Lower(b.host) && a.path == b.path && SameQuery(StableQuery(a.query), StableQuery(b.query))
  {
    hide IsSigning, Signs, SameUpToCase;
    LowerSameIff(a.host, b.host);
    var q, r := StableQuery(a.query), StableQuery(b.query);
    forall name ensures IsSigning(name) <==> Signs(name) { IsSigningIff(name); }
    assert forall name :: name in q <==> name in a.query && !Signs(name);
    assert forall name :: name in r <==> name in b.query && !Signs(name);
    if SameQuery(q, r) {
      forall name | !Signs(name)
        ensures (name in a.query <==> name in b.query) &&
                (name in a.query && name in b.query ==> multiset(a.query[name]) == multiset(b.query[name]))
      {
        assert name in q.Keys <==> name in r.Keys;
        assert name in q ==> q[name] == a.query[name] && r[name] == b.query[name];
      }
    }
    if SameObject(a, b) {
      forall name ensures name in q.Keys <==> name in r.Keys { }
      forall name | name in q ensures multiset(q[name]) == multiset(r[name]) { }
    }
  }

  // ----- Encoded queries are canonical -----

  lemma PairInjective(k: string, v: string, l: string, w: string)
    requires IsBytes(k) && IsBytes(v) && IsBytes(l) && IsBytes(w)
    ensures PairText(k, v) == PairText(l, w) <==> k == l && v == w
  {
    if PairText(k, v) == PairText(l, w) {
      PairSplits(k, v);
      PairSplits(l, w);
      EscapeInjective(k, l);
      EscapeInjective(v, w);
    }
  }

  lemma PairSplits(k: string, v: string)
    ensures SplitOn(PairText(k, v), '=') == [QueryEscape(k), QueryEscape(v)]
  {
    var a, b := QueryEscape(k), QueryEscape(v);
    EscapeHasNoSeparator(k);
    EscapeHasNoSeparator(v);
    SplitWithout(a, '=');
    SplitWithout(b, '=');
    assert a + "=" + b == a + ['='] + b;
    SplitAppend(a, b, '=');
  }

  lemma CountSnoc(front: seq<string>, last: string, x: string)
    ensures multiset(front + [last])[x] == multiset(front)[x] + if last == x then 1 else 0
  {
  }

  lemma {:induction false} CountInPairsFrom(key: string, values: seq<string>, k: string, v: string)
    requires IsBytes(key) && IsBytes(k) && IsBytes(v) && forall i :: 0 <= i < |values| ==> IsBytes(values[i])
    ensures multiset(PairsFrom(key, values))[PairText(k, v)] == if key == k then multiset(values)[v] else 0
  {
    hide PairsFrom, PairText, IsBytes;
    PairsSnoc(key, values);
    if values != [] {
      var front, last := values[..|values| - 1], values[|values| - 1];
      CountInPairsFrom(key, front, k, v);
      PairInjective(key, last, k, v);
      CountSnoc(front, last, v);
      CountSnoc(PairsFrom(key, front), PairText(key, last), PairText(k, v));
    }
  }

  lemma PairsSnoc(key: string, values: seq<string>)
    ensures values == [] ==> PairsFrom(key, values) == []
    ensures values != [] ==>
              var front, last := values[..|values| - 1], values[|values| - 1];
              values == front + [last] && PairsFrom(key, values) == PairsFrom(key, front) + [PairText(key, last)]
  {
  }

  lemma CountInPairsOf(key: string, values: seq<string>, k: string, v: string)
    requires IsBytes(key) && IsBytes(k) && IsBytes(v)
    requires values != [] && forall i :: 0 <= i < |values| ==> IsBytes(values[i])
    ensures multiset(PairsOf(key, values))[PairText(k, v)] == if key == k then multiset(values)[v] else 0
  {
    var vals := Sort(values);
    forall i | 0 <= i < |vals| ensures IsBytes(vals[i]) {
      assert vals[i] in multiset(vals) && vals[i] in multiset(values);
      var j :| 0 <= j < |values| && values[j] == vals[i];
    }
    CountInPairsFrom(key, vals, k, v);
  }

  lemma {:induction false} CountInAllPairs(keys: seq<string>, q: map<string, seq<string>>, k: string, v: string)
    requires ValidQuery(q) && (forall x | x in keys :: x in q) && IsBytes(k) && IsBytes(v) && multiset(keys)[k] <= 1
    ensures multiset(AllPairs(keys, q))[PairText(k, v)] == if k in keys then multiset(q[k])[v] else 0
  {
    if keys != [] {
      var front, last := keys[..|keys| - 1], keys[|keys| - 1];
      assert keys == front + [last];
      CountInAllPairs(front, q, k, v);
      CountInPairsOf(last, q[last], k, v);
      assert k in front <==> multiset(front)[k] > 0;
      assert k in keys <==> k in front || k == last;
    }
  }

  lemma CountInSortedPairs(q: map<string, seq<string>>, k: string, v: string)
    requires ValidQuery(q) && IsBytes(k) && IsBytes(v)
    ensures multiset(AllPairs(SortedKeys(q), q))[PairText(k, v)] == if k in q then multiset(q[k])[v] else 0
  {
    assert multiset(q.Keys)[k] <= 1;
    CountInAllPairs(SortedKeys(q), q, k, v);
  }

  predicate CleanPairs(pairs: seq<string>) {
    forall i :: 0 <= i < |pairs| ==> pairs[i] != "" && '&' !in pairs[i] && '|' !in pairs[i]
  }

  lemma PairClean(key: string, value: string)
    ensures CleanPairs([PairText(key, value)])
  {
    EscapeHasNoSeparator(key);
    EscapeHasNoSeparator(value);
  }

  lemma {:induction false} PairsFromClean(key: string, values: seq<string>)
    ensures CleanPairs(PairsFrom(key, values))
  {
    if values != [] {
      PairsFromClean(key, values[..|values| - 1]);
      PairClean(key, values[|values| - 1]);
      assert CleanPairs([PairText(key, values[|values| - 1])]);
    }
  }

  lemma {:induction false} AllPairsClean(keys: seq<string>, q: map<string, seq<string>>)
    requires (forall k | k in keys :: k in q) && ValidQuery(q)
    ensures CleanPairs(AllPairs(keys, q))
  {
    if keys != [] {
      var last := keys[|keys| - 1];
      AllPairsClean(keys[..|keys| - 1], q);
      PairsFromClean(last, Sort(q[last]));
    }
  }

  lemma {:induction false} SamePairs(keys: seq<string>, q: map<string, seq<string>>, r: map<string, seq<string>>)
    requires SameQuery(q, r) && forall k | k in keys :: k in q
    ensures AllPairs(keys, q) == AllPairs(keys, r)
  {
    if keys != [] {
      var last := keys[|keys| - 1];
      SamePairs(keys[..|keys| - 1], q, r);
      assert last in q;
      SortCanonical(q[last], r[last]);
      assert |multiset(q[last])| == |q[last]| && |multiset(r[last])| == |r[last]|;
    }
  }

  /** Two queries encode alike exactly when every key has the same values, each as often. */
  lemma EncodedQueryCanonical(q: map<string, seq<string>>, r: map<string, seq<string>>)
    requires ValidQuery(q) && ValidQuery(r)
    ensures EncodedQuery(q) == EncodedQuery(r) <==> SameQuery(q, r)
  {
    hide Join, PairText, SortedKeys, IsBytes, AllPairs, CleanPairs, NoneHas, SameQuery, ValidQuery;
    if SameQuery(q, r) {
      SameSortedKeys(q, r);
      SamePairs(SortedKeys(q), q, r);
    }
    if EncodedQuery(q) == EncodedQuery(r) {
      var pq, pr := AllPairs(SortedKeys(q), q), AllPairs(SortedKeys(r), r);
      AllPairsClean(SortedKeys(q), q);
      AllPairsClean(SortedKeys(r), r);
      CleanJoinInjective(pq, pr);
      SamePairsSameQuery(q, r);
    }
  }

  lemma CleanJoinInjective(a: seq<string>, b: seq<string>)
    requires CleanPairs(a) && CleanPairs(b) && Join(a, '&') == Join(b, '&')
    ensures a == b
  {
    JoinInjective(a, b, '&');
  }

  lemma SameSortedKeys(q: map<string, seq<string>>, r: map<string, seq<string>>)
    requires SameQuery(q, r)
    ensures SortedKeys(q) == SortedKeys(r)
  {
  }

  lemma SamePairsSameQuery(q: map<string, seq<string>>, r: map<string, seq<string>>)
    requires ValidQuery(q) && ValidQuery(r) && AllPairs(SortedKeys(q), q) == AllPairs(SortedKeys(r), r)
    ensures SameQuery(q, r)
  {
    SamePairsSameValues(q, r);
    SamePairsSameValues(r, q);
  }

  lemma SamePairsSameValues(q: map<string, seq<string>>, r: map<string, seq<string>>)
    requires ValidQuery(q) && ValidQuery(r) && AllPairs(SortedKeys(q), q) == AllPairs(SortedKeys(r), r)
    ensures forall k | k in q :: k in r && multiset(q[k]) == multiset(r[k])
  {
    hide AllPairs, SortedKeys, PairText;
    forall k | k in q ensures k in r && multiset(q[k]) == multiset(r[k]) {
      forall v | IsBytes(v) ensures multiset(q[k])[v] == if k in r then multiset(r[k])[v] else 0 {
        CountInSortedPairs(q, k, v);
        CountInSortedPairs(r, k, v);
      }
      assert IsBytes(q[k][0]) && q[k][0] in multiset(q[k]);
      forall v ensures multiset(q[k])[v] == multiset(r[k])[v] {
        if !IsBytes(v) { NotAmong(q[k], v); NotAmong(r[k], v); }
      }
    }
  }

  lemma NotAmong(values: seq<string>, v: string)
    requires !IsBytes(v) && forall i :: 0 <= i < |values| ==> IsBytes(values[i])
    ensures multiset(values)[v] == 0
  {
    forall i | 0 <= i < |values| ensures values[i] != v { }
    assert v !in values;
  }

  // ----- Keys are canonical -----

  ghost function Suffix(t: Target): seq<string> {
    ObjectFields(t) + [QueryField(t)]
  }

  lemma StableIsValid(t: Target)
    requires t.Valid()
    ensures ValidQuery(StableQuery(t.query))
  {
  }

  lemma SuffixHasNoBar(t: Target)
    requires t.Valid()
    ensures NoneHas(Suffix(t), '|')
  {
    hide EncodedQuery, StableQuery;
    StableIsValid(t);
    LowerKeepsOut(t.host, '|');
    EncodedHasNoBar(StableQuery(t.query));
  }

  lemma EncodedHasNoBar(q: map<string, seq<string>>)
    requires ValidQuery(q)
    ensures '|' !in EncodedQuery(q)
  {
    AllPairsClean(SortedKeys(q), q);
    JoinFree(AllPairs(SortedKeys(q), q), '&', '|');
  }

  lemma KeySplits(t: Target, s: Scope)
    requires t.Valid()
    ensures CacheKey(t, s) == ScopeText(s) + ['|'] + Join(Suffix(t), '|')
    ensures SplitOn(CacheKey(t, s), '|') == SplitOn(ScopeText(s), '|') + Suffix(t)
  {
    hide SplitOn, Join, EncodedQuery, NoneHas;
    SuffixHasNoBar(t);
    assert ScopeFields(s) + ObjectFields(t) + [QueryField(t)] == ScopeFields(s) + Suffix(t);
    JoinAppend(ScopeFields(s), Suffix(t), '|');
    SplitJoin(Suffix(t), '|');
    SplitAppend(ScopeText(s), Join(Suffix(t), '|'), '|');
  }

  lemma DropPrefix(p: string, a: string, b: string)
    ensures p + a == p + b <==> a == b
  {
    if p + a == p + b { assert (p + a)[|p|..] == a && (p + b)[|p|..] == b; }
  }

  lemma SuffixCanonical(a: Target, b: Target)
    requires a.Valid() && b.Valid()
    ensures Suffix(a) == Suffix(b) <==> SameObject(a, b)
  {
    hide EncodedQuery, StableQuery, SameQuery, SameObject;
    SameObjectIff(a, b);
    StableIsValid(a);
    StableIsValid(b);
    EncodedQueryCanonical(StableQuery(a.query), StableQuery(b.query));
    DropPrefix("host=", Lower(a.host), Lower(b.host));
    DropPrefix("path=", a.path, b.path);
    DropPrefix("query=", EncodedQuery(StableQuery(a.query)), EncodedQuery(StableQuery(b.query)));
    assert Suffix(a) == [Suffix(a)[0], Suffix(a)[1], Suffix(a)[2]];
    assert Suffix(b) == [Suffix(b)[0], Suffix(b)[1], Suffix(b)[2]];
  }

  /** Keys are equal exactly when the targets are the same object and the scopes contribute the
      same text. In particular, within one scope, exactly the same objects share a key. */
  lemma KeyCanonical(a: Target, s: Scope, b: Target, u: Scope)
    requires a.Valid() && b.Valid()
    ensures CacheKey(a, s) == CacheKey(b, u) <==> ScopeText(s) == ScopeText(u) && SameObject(a, b)
  {
    hide SplitOn, Join, SameObject, CacheKey, ScopeText;
    KeySplits(a, s);
    KeySplits(b, u);
    SuffixCanonical(a, b);
    if CacheKey(a, s) == CacheKey(b, u) {
      var x, y := SplitOn(ScopeText(s), '|'), SplitOn(ScopeText(u), '|');
      assert |Suffix(a)| == |Suffix(b)| == 3;
      var all := x + Suffix(a);
      assert all[..|x|] == x && all[|x|..] == Suffix(a) && all[..|y|] == y && all[|y|..] == Suffix(b);
      JoinSplit(ScopeText(s), '|');
      JoinSplit(ScopeText(u), '|');
    }
  }

  /** Parameters that sign do not matter: whatever their values, and whether they are there at all. */
  lemma SigningDoesNotMatter(t: Target, s: Scope, name: string, rest: string, word: string, values: seq<string>)
    requires (word == "x-amz-" || word == "x-goog-") && SameUpToCase(name, word)
    requires t.Valid() && t.(query := t.query[name + rest := values]).Valid()
    ensures CacheKey(t.(query := t.query[name + rest := values]), s) ==
              CacheKey(t.(query := t.query - {name + rest}), s)
  {
    hide CacheKey, ScopeText, SameUpToCase;
    var more, less := t.(query := t.query[name + rest := values]), t.(query := t.query - {name + rest});
    assert |name| == |word| by { SameLength(name, word); }
    assert (name + rest)[..|word|] == name;
    assert Signs(name + rest);
    SameTextUpToCase(t.host);
    assert SameObject(more, less);
    KeyCanonical(more, s, less, s);
  }

  lemma SameLength(a: string, b: string)
    requires SameUpToCase(a, b)
    ensures |a| == |b|
  {
  }

  lemma SameTextUpToCase(a: string)
    ensures SameUpToCase(a, a)
  {
  }

  /** Every other parameter does: if it has different values, or only one of the targets has it, the
      keys differ, in whatever scopes. The version of an object is one. */
  lemma OthersMatter(a: Target, s: Scope, b: Target, u: Scope, name: string)
    requires a.Valid() && b.Valid()
    requires |name| < 6 || !SameUpToCase(name[..6], "x-amz-")
    requires |name| < 7 || !SameUpToCase(name[..7], "x-goog-")
    requires (name in a.query) != (name in b.query) ||
             (name in a.query && name in b.query && multiset(a.query[name]) != multiset(b.query[name]))
    ensures CacheKey(a, s) != CacheKey(b, u)
  {
    hide CacheKey, ScopeText;
    assert !Signs(name);
    KeyCanonical(a, s, b, u);
  }

  /** So two versions of an object never share a key. */
  lemma VersionsMatter(a: Target, s: Scope, b: Target, u: Scope, v: string, w: string)
    requires a.Valid() && b.Valid() && v != w
    requires "versionId" in a.query && a.query["versionId"] == [v]
    requires "versionId" in b.query && b.query["versionId"] == [w]
    ensures CacheKey(a, s) != CacheKey(b, u)
  {
    hide CacheKey;
    var name := "versionId";
    assert name[..6][0] == 'v' && name[..7][0] == 'v' && "x-amz-"[0] == 'x' && "x-goog-"[0] == 'x';
    assert !SameLetter('v', 'x');
    assert v in multiset([v]) && v !in multiset([w]);
    OthersMatter(a, s, b, u, name);
  }

  // ----- Exactly which scopes the key tells apart -----

  const SUBJECT_MARK: string := "|subject="
  const AUTH_MARK: string := "|auth="
  const HOST_MARK: string := "|host="
  const PATH_MARK: string := "|path="
  const QUERY_MARK: string := "|query="

  predicate MarkAt(s: string, mark: string, i: int) {
    0 <= i && i + |mark| <= |s| && s[i..i + |mark|] == mark
  }

  /** No name holds the text that introduces the next field; one at the very end of the auth scope
      does no harm, as it would leave an empty auth scope. */
  ghost predicate Unambiguous(s: Scope) {
    && (forall i :: !MarkAt(s.tenant, SUBJECT_MARK, i))
    && (forall i :: !MarkAt(s.subject, SUBJECT_MARK, i))
    && (forall i :: !MarkAt(s.subject, AUTH_MARK, i))
    && (forall i :: MarkAt(s.auth, AUTH_MARK, i) ==> i + |AUTH_MARK| == |s.auth|)
  }

  lemma ScopeTextIs(s: Scope)
    ensures ScopeText(s) == "tenant=" + (s.tenant + SUBJECT_MARK + (s.subject + AUTH_MARK + s.auth))
  {
    var a, b, c := "tenant=" + s.tenant, "subject=" + s.subject, "auth=" + s.auth;
    assert [a, b, c][1..] == [b, c] && [b, c][1..] == [c];
    assert Join([b, c], '|') == b + ['|'] + Join([c], '|');
    assert Join([a, b, c], '|') == a + ['|'] + Join([b, c], '|');
  }

  predicate IsMark(m: string) {
    m == SUBJECT_MARK || m == AUTH_MARK || m == HOST_MARK || m == PATH_MARK || m == QUERY_MARK
  }

  /** The shape of a mark. */
  predicate BarFirst(m: string) {
    |m| >= 2 && m[0] == '|' && forall k :: 1 <= k < |m| ==> m[k] != '|'
  }

  lemma BarOnlyFirst(s: string, m: string, i: int)
    requires BarFirst(m) && MarkAt(s, m, i)
    ensures s[i] == '|' && s[i + 1] == m[1] && forall k :: i < k < i + |m| ==> s[k] != '|'
  {
    forall k | i < k < i + |m| ensures s[k] != '|' { assert s[k] == s[i..i + |m|][k - i]; }
    assert s[i] == s[i..i + |m|][0] && s[i + 1] == s[i..i + |m|][1];
  }

  lemma BarFirstLies(x: string, m: string, y: string, n: string, i: int)
    requires BarFirst(m) && BarFirst(n) && MarkAt(x + m + y, n, i)
    ensures MarkAt(x, n, i) || (i == |x| && m[1] == n[1]) || MarkAt(y, n, i - |x| - |m|)
  {
    var w := x + m + y;
    BarOnlyFirst(w, n, i);
    MarkIsAt(x, m, y);
    BarOnlyFirst(w, m, |x|);
    assert !(i < |x| < i + |n|) && !(|x| < i < |x| + |m|);
    if i + |n| <= |x| {
      assert w[i..i + |n|] == x[i..i + |n|];
    } else if i != |x| {
      var j := i - |x| - |m|;
      assert w[i..i + |n|] == y[j..j + |n|];
    }
  }

  /** A mark in x + m + y lies in x, or in y, or is m itself: marks do not overlap. */
  lemma MarkLies(x: string, m: string, y: string, n: string, i: int)
    requires IsMark(m) && IsMark(n) && MarkAt(x + m + y, n, i)
    ensures MarkAt(x, n, i) || (i == |x| && m == n) || MarkAt(y, n, i - |x| - |m|)
  {
    assert BarFirst(m) && BarFirst(n) && (m[1] == n[1] ==> m == n) by { MarksDiffer(m, n); }
    hide IsMark, MarkAt;
    BarFirstLies(x, m, y, n, i);
  }

  lemma MarksDiffer(m: string, n: string)
    requires IsMark(m) && IsMark(n)
    ensures BarFirst(m) && BarFirst(n) && (m[1] == n[1] ==> m == n)
  {
  }

  lemma MarkIsAt(x: string, m: string, y: string)
    ensures MarkAt(x + m + y, m, |x|)
  {
  }

  /** Two readings of subject and auth scope. */
  lemma SameSubject(v: string, a: string, w: string, b: string)
    requires v + AUTH_MARK + a == w + AUTH_MARK + b && b != ""
    requires forall i :: !MarkAt(v, AUTH_MARK, i)
    requires forall i :: MarkAt(a, AUTH_MARK, i) ==> i + |AUTH_MARK| == |a|
    ensures v == w && a == b
  {
    MarkIsAt(w, AUTH_MARK, b);
    MarkLies(v, AUTH_MARK, a, AUTH_MARK, |w|);
    assert |w| == |v|;
    assert (v + AUTH_MARK + a)[..|v|] == v && (w + AUTH_MARK + b)[..|w|] == w;
    assert (v + AUTH_MARK + a)[|v| + 6..] == a && (w + AUTH_MARK + b)[|w| + 6..] == b;
  }

  /** Two readings of a text by marks m and n. If the first field of the second reading is longer, its
      mark m lies in the last field of the first, and a second mark n follows it there. */
  lemma LongerReading(t: string, m: string, v: string, n: string, a: string, t2: string, v2: string, a2: string)
    returns (i: int)
    requires BarFirst(m) && BarFirst(n) && m[1] != n[1] && |t2| > |t|
    requires t + m + (v + n + a) == t2 + m + (v2 + n + a2)
    requires forall k :: !MarkAt(t, m, k) && !MarkAt(v, m, k)
    ensures MarkAt(a, n, i) && i + |n| + |a2| == |a|
  {
    hide MarkAt, BarFirst;
    var r, q := v + n + a, v2 + n + a2;
    MarkIsAt(t2, m, q);
    BarFirstLies(t, m, r, m, |t2|);
    var j := |t2| - |t| - |m|;
    BarFirstLies(v, n, a, m, j);
    var k := j - |v| - |n|;
    MarkFits(a, m, k);
    Beyond(t2 + m, q, 0);
    Beyond(t + m, r, j + |m|);
    Beyond(v + n, a, k + |m|);
    MarkIsAt(v2, n, a2);
    i := k + |m| + |v2|;
    MarkInTail(a, n, k + |m|, |v2|);
  }

  lemma NotLonger(t: string, v: string, a: string, u: Scope)
    requires u.Valid() && Unambiguous(Scope(t, v, a))
    requires t + SUBJECT_MARK + (v + AUTH_MARK + a) == u.tenant + SUBJECT_MARK + (u.subject + AUTH_MARK + u.auth)
    ensures |u.tenant| <= |t|
  {
    MarksDiffer(SUBJECT_MARK, AUTH_MARK);
    if |u.tenant| > |t| {
      var i := LongerReading(t, SUBJECT_MARK, v, AUTH_MARK, a, u.tenant, u.subject, u.auth);
    }
  }

  lemma MarkFits(s: string, mark: string, i: int)
    requires MarkAt(s, mark, i)
    ensures 0 <= i && i + |mark| <= |s|
  {
  }

  lemma Beyond(x: string, y: string, n: nat)
    requires n <= |y|
    ensures (x + y)[|x| + n..] == y[n..]
  {
  }

  lemma MarkInTail(s: string, mark: string, n: nat, i: nat)
    requires n <= |s| && MarkAt(s[n..], mark, i)
    ensures MarkAt(s, mark, n + i)
  {
    assert s[n..][i..i + |mark|] == s[n + i..n + i + |mark|];
  }

  lemma SameTenant(s: Scope, u: Scope)
    requires u.Valid() && Unambiguous(s) && ScopeText(s) == ScopeText(u)
    ensures s.tenant == u.tenant && s.subject + AUTH_MARK + s.auth == u.subject + AUTH_MARK + u.auth
  {
    hide ScopeText;
    ScopeTextIs(s);
    ScopeTextIs(u);
    var r, q := s.subject + AUTH_MARK + s.auth, u.subject + AUTH_MARK + u.auth;
    var w := s.tenant + SUBJECT_MARK + r;
    DropPrefix("tenant=", w, u.tenant + SUBJECT_MARK + q);
    NotLonger(s.tenant, s.subject, s.auth, u);
    MarkIsAt(u.tenant, SUBJECT_MARK, q);
    MarkLies(s.tenant, SUBJECT_MARK, r, SUBJECT_MARK, |u.tenant|);
    assert w[..|s.tenant|] == s.tenant && w[..|u.tenant|] == u.tenant;
    assert w[|s.tenant| + 9..] == r && w[|u.tenant| + 9..] == q;
  }

  lemma UnambiguousIsRead(s: Scope, u: Scope)
    requires u.Valid() && Unambiguous(s) && ScopeText(s) == ScopeText(u)
    ensures s == u
  {
    SameTenant(s, u);
    SameSubject(s.subject, s.auth, u.subject, u.auth);
  }

  lemma CutAtMark(s: string, mark: string, i: int)
    requires MarkAt(s, mark, i)
    ensures s == s[..i] + mark + s[i + |mark|..]
  {
  }

  /** Moving the boundary between two fields to another mark. */
  lemma Regroup(x: string, m: string, y: string, n: string, z: string)
    ensures x + m + y + n + z == x + m + (y + n + z)
  {
  }

  lemma Flatten(s: Scope)
    ensures ScopeText(s) == "tenant=" + (s.tenant + SUBJECT_MARK + s.subject + AUTH_MARK + s.auth)
  {
    ScopeTextIs(s);
    Regroup(s.tenant, SUBJECT_MARK, s.subject, AUTH_MARK, s.auth);
  }

  lemma TenantTwin(s: Scope, i: int)
    requires MarkAt(s.tenant, SUBJECT_MARK, i)
    ensures ScopeText(Scope(s.tenant[..i], s.tenant[i + 9..] + SUBJECT_MARK + s.subject, s.auth)) == ScopeText(s)
  {
    hide ScopeText;
    var x, y := s.tenant[..i], s.tenant[i + 9..];
    var u := Scope(x, y + SUBJECT_MARK + s.subject, s.auth);
    CutAtMark(s.tenant, SUBJECT_MARK, i);
    Flatten(s);
    Flatten(u);
    Regroup(x, SUBJECT_MARK, y, SUBJECT_MARK, s.subject);
  }

  lemma SubjectTwin(s: Scope, i: int)
    requires MarkAt(s.subject, SUBJECT_MARK, i)
    ensures ScopeText(Scope(s.tenant + SUBJECT_MARK + s.subject[..i], s.subject[i + 9..], s.auth)) == ScopeText(s)
  {
    hide ScopeText;
    var x, y := s.subject[..i], s.subject[i + 9..];
    CutAtMark(s.subject, SUBJECT_MARK, i);
    Flatten(s);
    Flatten(Scope(s.tenant + SUBJECT_MARK + x, y, s.auth));
    Regroup(s.tenant, SUBJECT_MARK, x, SUBJECT_MARK, y);
  }

  lemma AuthTwin(s: Scope, x: string, y: string, z: string)
    requires s.subject == x + AUTH_MARK + y && s.auth == z
    ensures ScopeText(Scope(s.tenant, x, y + AUTH_MARK + z)) == ScopeText(s)
  {
    hide ScopeText;
    Flatten(s);
    Flatten(Scope(s.tenant, x, y + AUTH_MARK + z));
    var t := s.tenant + SUBJECT_MARK;
    assert t + s.subject == t + x + AUTH_MARK + y;
    Regroup(t + x, AUTH_MARK, y, AUTH_MARK, z);
  }

  /** Another scope with the same text. */
  lemma AmbiguousHasTwin(s: Scope) returns (u: Scope)
    requires s.Valid() && !Unambiguous(s)
    ensures u.Valid() && u != s && ScopeText(u) == ScopeText(s)
  {
    hide ScopeText;
    if i :| MarkAt(s.tenant, SUBJECT_MARK, i) {
      TenantTwin(s, i);
      u := Scope(s.tenant[..i], s.tenant[i + 9..] + SUBJECT_MARK + s.subject, s.auth);
    } else if i :| MarkAt(s.subject, SUBJECT_MARK, i) {
      SubjectTwin(s, i);
      u := Scope(s.tenant + SUBJECT_MARK + s.subject[..i], s.subject[i + 9..], s.auth);
    } else if i :| MarkAt(s.subject, AUTH_MARK, i) {
      CutAtMark(s.subject, AUTH_MARK, i);
      AuthTwin(s, s.subject[..i], s.subject[i + 6..], s.auth);
      u := Scope(s.tenant, s.subject[..i], s.subject[i + 6..] + AUTH_MARK + s.auth);
    } else {
      var i :| MarkAt(s.auth, AUTH_MARK, i) && i + |AUTH_MARK| != |s.auth|;
      CutAtMark(s.auth, AUTH_MARK, i);
      u := Scope(s.tenant, s.subject + AUTH_MARK + s.auth[..i], s.auth[i + 6..]);
      AuthTwin(u, s.subject, s.auth[..i], u.auth);
    }
  }

  /** Whatever is asked for, no other scope shares a key with this one exactly if the scope is
      unambiguous. */
  lemma KeyNamesItsScopeIff(s: Scope)
    requires s.Valid()
    ensures (forall u: Scope, a: Target, b: Target | u.Valid() && a.Valid() && b.Valid() ::
               CacheKey(a, s) == CacheKey(b, u) ==> s == u)
       <==> Unambiguous(s)
  {
    hide CacheKey, ScopeText, Unambiguous, SameObject;
    if Unambiguous(s) {
      forall u: Scope, a: Target, b: Target | u.Valid() && a.Valid() && b.Valid() && CacheKey(a, s) == CacheKey(b, u)
        ensures s == u
      {
        KeyCanonical(a, s, b, u);
        UnambiguousIsRead(s, u);
      }
    } else {
      var u := AmbiguousHasTwin(s);
      var a := Target("h", "/", map[]);
      KeyCanonical(a, s, a, u);
      assert CacheKey(a, s) == CacheKey(a, u) by { SameAsItself(a); }
    }
  }

  lemma SameAsItself(t: Target)
    ensures SameObject(t, t)
  {
  }

  /** For an unambiguous scope the whole key tells both the scope and the object apart. */
  lemma KeyInjective(a: Target, s: Scope, b: Target, u: Scope)
    requires a.Valid() && b.Valid() && u.Valid() && Unambiguous(s)
    ensures CacheKey(a, s) == CacheKey(b, u) <==> s == u && SameObject(a, b)
  {
    hide SameObject, CacheKey, ScopeText, Unambiguous;
    KeyCanonical(a, s, b, u);
    if ScopeText(s) == ScopeText(u) { UnambiguousIsRead(s, u); }
  }

  /** Two identities that share the key of every object. */
  lemma BarsCanCollide(t: Target)
    requires t.Valid()
    ensures CacheKey(t, Scope("a|subject=b", "c", "anonymous")) == CacheKey(t, Scope("a", "b|subject=c", "anonymous"))
  {
    hide CacheKey, ScopeText, SameObject;
    var s, u := Scope("a|subject=b", "c", "anonymous"), Scope("a", "b|subject=c", "anonymous");
    ScopeTextIs(s);
    ScopeTextIs(u);
    assert s.tenant == "a" + SUBJECT_MARK + "b" && u.subject == "b" + SUBJECT_MARK + "c";
    SameAsItself(t);
    KeyCanonical(t, s, t, u);
  }

  // ----- Invalidation -----

  /** strings.Cut: what precedes the first occurrence of the mark, or everything. */
  function CutBefore(s: string): string {
    if s == "" || QUERY_MARK <= s then "" else [s[0]] + CutBefore(s[1..])
  }

  function MetaKey(key: string): string { "s3:meta:" + key }
  function BodyKey(key: string): string { "s3:body:" + key }

  /** The records that a successful mutation of the object with this key removes. */
  predicate Invalidates(key: string, record: string) {
    var prefix := CutBefore(key);
    MetaKey(prefix + QUERY_MARK) <= record || BodyKey(prefix + QUERY_MARK) <= record
  }

  lemma {:induction false} CutPastField(f: string, rest: string)
    requires '|' !in f
    ensures CutBefore(f + rest) == f + CutBefore(rest)
  {
    if f == "" {
      assert f + rest == rest;
    } else {
      assert f[0] in f;
      assert (f + rest)[1..] == f[1..] + rest && (f + rest)[0] == f[0];
      CutPastField(f[1..], rest);
      assert f == [f[0]] + f[1..];
    }
  }

  lemma CutPastBar(rest: string)
    requires rest != "" && rest[0] != 'q'
    ensures CutBefore("|" + rest) == "|" + CutBefore(rest)
  {
    assert ("|" + rest)[1] != 'q' && ("|" + rest)[1..] == rest;
  }

  /** The five fields before the query, joined. */
  function Head(fields: seq<string>): string
    requires |fields| == 5
  {
    fields[0] + ("|" + (fields[1] + ("|" + (fields[2] + ("|" + (fields[3] + ("|" + fields[4])))))))
  }

  lemma CutFindsQuery(fields: seq<string>, rest: string)
    requires |fields| == 5 && NoneHas(fields, '|')
    requires forall i :: 1 <= i < 5 ==> fields[i] != "" && fields[i][0] != 'q'
    ensures CutBefore(Head(fields) + (QUERY_MARK + rest)) == Head(fields)
  {
    var tail := QUERY_MARK + rest;
    assert CutBefore(tail) == "";
    var r4 := fields[4] + tail;
    var r3 := fields[3] + ("|" + r4);
    var r2 := fields[2] + ("|" + r3);
    var r1 := fields[1] + ("|" + r2);
    assert Head(fields) + tail == fields[0] + ("|" + r1);
    CutPastField(fields[0], "|" + r1);
    CutPastBar(r1);
    CutPastField(fields[1], "|" + r2);
    CutPastBar(r2);
    CutPastField(fields[2], "|" + r3);
    CutPastBar(r3);
    CutPastField(fields[3], "|" + r4);
    CutPastBar(r4);
    CutPastField(fields[4], tail);
    assert fields[4] + "" == fields[4];
  }

  function HeadFields(t: Target, s: Scope): (f: seq<string>)
    ensures |f| == 5
  {
    ScopeFields(s) + ObjectFields(t)
  }

  /** A head followed by a query field is the join of the six. */
  lemma HeadIsJoin(f: seq<string>, q: string)
    requires |f| == 5
    ensures Head(f) + (QUERY_MARK + q) == Join(f + ["query=" + q], '|')
  {
    hide Join;
    var field := "query=" + q;
    JoinSix(f[0], f[1], f[2], f[3], f[4], field);
    assert f + [field] == [f[0], f[1], f[2], f[3], f[4], field];
    assert ['|'] + field == QUERY_MARK + q;
    HeadJoins(f[0], f[1], f[2], f[3], f[4], ['|'] + field);
    assert f == [f[0], f[1], f[2], f[3], f[4]];
    assert f[4] + ['|'] + field == f[4] + (['|'] + field);
  }

  lemma KeyHasHead(t: Target, s: Scope)
    ensures CacheKey(t, s) == Head(HeadFields(t, s)) + (QUERY_MARK + EncodedQuery(StableQuery(t.query)))
  {
    hide EncodedQuery, StableQuery, Join, Head;
    HeadIsJoin(HeadFields(t, s), EncodedQuery(StableQuery(t.query)));
  }

  lemma JoinSix(a: string, b: string, c: string, d: string, e: string, f: string)
    ensures Join([a, b, c, d, e, f], '|') == a + ['|'] + (b + ['|'] + (c + ['|'] + (d + ['|'] + (e + ['|'] + f))))
  {
    assert [a, b, c, d, e, f][1..] == [b, c, d, e, f] && [b, c, d, e, f][1..] == [c, d, e, f];
    assert [c, d, e, f][1..] == [d, e, f] && [d, e, f][1..] == [e, f] && [e, f][1..] == [f];
    assert Join([e, f], '|') == e + ['|'] + f;
    assert Join([d, e, f], '|') == d + ['|'] + Join([e, f], '|');
    assert Join([c, d, e, f], '|') == c + ['|'] + Join([d, e, f], '|');
    assert Join([b, c, d, e, f], '|') == b + ['|'] + Join([c, d, e, f], '|');
  }

  lemma HeadJoins(a: string, b: string, c: string, d: string, e: string, tail: string)
    ensures a + ['|'] + (b + ['|'] + (c + ['|'] + (d + ['|'] + (e + tail)))) == Head([a, b, c, d, e]) + tail
  {
    var r3 := d + ("|" + e);
    var r2 := c + ("|" + r3);
    var r1 := b + ("|" + r2);
    assert d + ['|'] + (e + tail) == r3 + tail;
    assert c + ['|'] + (r3 + tail) == r2 + tail;
    assert b + ['|'] + (r2 + tail) == r1 + tail;
    assert a + ['|'] + (r1 + tail) == a + ("|" + r1) + tail;
  }

  lemma HeadFieldsShape(t: Target, s: Scope)
    requires t.Valid() && NoBar(s)
    ensures NoneHas(HeadFields(t, s), '|')
    ensures forall i :: 1 <= i < 5 ==> HeadFields(t, s)[i] != "" && HeadFields(t, s)[i][0] != 'q'
  {
    LowerKeepsOut(t.host, '|');
  }

  lemma HeadSplits(f: seq<string>, q: string)
    requires |f| == 5 && NoneHas(f, '|')
    ensures f <= SplitOn(Head(f) + (QUERY_MARK + q), '|')
  {
    hide Join, SplitOn, Head, NoneHas;
    HeadIsJoin(f, q);
    var field := "query=" + q;
    JoinAppend(f, [field], '|');
    JoinOne(field, '|');
    SplitJoin(f, '|');
    SplitAppend(Join(f, '|'), field, '|');
  }

  lemma JoinOne(field: string, sep: char)
    ensures Join([field], sep) == field
  {
  }

  lemma HeadPrefix(f: seq<string>, g: seq<string>, q: string)
    requires |f| == |g| == 5 && NoneHas(f, '|') && NoneHas(g, '|')
    ensures Head(f) + QUERY_MARK <= Head(g) + (QUERY_MARK + q) <==> f == g
  {
    hide Join, SplitOn, Head, NoneHas;
    var key := Head(g) + (QUERY_MARK + q);
    assert Head(g) + QUERY_MARK <= key;
    if Head(f) + QUERY_MARK <= key {
      var y := key[|Head(f) + QUERY_MARK|..];
      assert key == Head(f) + (QUERY_MARK + y);
      HeadSplits(f, y);
      HeadSplits(g, q);
      assert SplitOn(key, '|')[..5] == f;
    }
  }

  lemma SameHead(t: Target, s: Scope, o: Target, u: Scope)
    ensures HeadFields(t, s) == HeadFields(o, u) <==> s == u && Lower(t.host) == Lower(o.host) && t.path == o.path
  {
    hide Lower;
    var f, g := HeadFields(t, s), HeadFields(o, u);
    assert f == [f[0], f[1], f[2], f[3], f[4]] && g == [g[0], g[1], g[2], g[3], g[4]];
    DropPrefix("tenant=", s.tenant, u.tenant);
    DropPrefix("subject=", s.subject, u.subject);
    DropPrefix("auth=", s.auth, u.auth);
    DropPrefix("host=", Lower(t.host), Lower(o.host));
    DropPrefix("path=", t.path, o.path);
  }

  lemma SameKind(kind: string, p: string, key: string)
    ensures kind + p <= kind + key <==> p <= key
  {
    if p <= key { assert kind + key == kind + p + key[|p|..]; }
    if kind + p <= kind + key {
      var rest := (kind + key)[|kind + p|..];
      assert kind + key == kind + (p + rest);
      DropPrefix(kind, key, p + rest);
    }
  }

  lemma OtherKind(p: string, key: string)
    ensures !(MetaKey(p) <= BodyKey(key)) && !(BodyKey(p) <= MetaKey(key))
  {
    assert MetaKey(p)[3] == 'm' && BodyKey(p)[3] == 'b' && MetaKey(key)[3] == 'm' && BodyKey(key)[3] == 'b';
  }

  lemma RecordPrefix(p: string, key: string)
    ensures MetaKey(p) <= MetaKey(key) <==> p <= key
    ensures BodyKey(p) <= BodyKey(key) <==> p <= key
    ensures !(MetaKey(p) <= BodyKey(key)) && !(BodyKey(p) <= MetaKey(key))
  {
    SameKind("s3:meta:", p, key);
    SameKind("s3:body:", p, key);
    OtherKind(p, key);
  }

  lemma {:induction false} CutIsAtMost(h: string, rest: string)
    requires QUERY_MARK <= rest
    ensures CutBefore(h + rest) + QUERY_MARK <= h + rest && |CutBefore(h + rest)| <= |h|
  {
    var s := h + rest;
    if h == "" {
      assert s == rest;
    } else if !(QUERY_MARK <= s) {
      assert s[1..] == h[1..] + rest;
      CutIsAtMost(h[1..], rest);
      assert s == [s[0]] + s[1..];
    }
  }

  /** Whatever the scope is called, invalidation removes the metadata and the body record of every
      query variant of the object. */
  lemma InvalidatesEveryVariant(t: Target, s: Scope, o: Target)
    requires SameUpToCase(t.host, o.host) && t.path == o.path
    ensures Invalidates(CacheKey(t, s), MetaKey(CacheKey(o, s))) && Invalidates(CacheKey(t, s), BodyKey(CacheKey(o, s)))
  {
    hide CacheKey, CutBefore, Head, HeadFields, Lower, EncodedQuery, StableQuery, MetaKey, BodyKey;
    LowerSameIff(t.host, o.host);
    var q, r := EncodedQuery(StableQuery(t.query)), EncodedQuery(StableQuery(o.query));
    KeyHasHead(t, s);
    KeyHasHead(o, s);
    SameHead(t, s, o, s);
    var h := Head(HeadFields(t, s));
    CutIsAtMost(h, QUERY_MARK + q);
    var cut := CutBefore(CacheKey(t, s)) + QUERY_MARK;
    assert cut <= h + (QUERY_MARK + q) && |cut| <= |h + QUERY_MARK|;
    assert h + (QUERY_MARK + q) == h + QUERY_MARK + q && h + (QUERY_MARK + r) == h + QUERY_MARK + r;
    assert cut <= CacheKey(o, s);
    RecordPrefix(cut, CacheKey(o, s));
  }

  // ----- Exactly what invalidation removes -----

  ghost predicate NoQueryMark(s: Scope) {
    forall i :: !MarkAt(s.tenant, QUERY_MARK, i) && !MarkAt(s.subject, QUERY_MARK, i) && !MarkAt(s.auth, QUERY_MARK, i)
  }

  /** The key up to its query. */
  ghost function KeyHead(t: Target, s: Scope): string {
    ScopeText(s) + HOST_MARK + (Lower(t.host) + PATH_MARK + t.path)
  }

  /** The other scope's own names spell the object of this one up to its query. */
  ghost predicate Imitates(u: Scope, t: Target, s: Scope) {
    KeyHead(t, s) + QUERY_MARK <= ScopeText(u)
  }

  lemma KeyIsHeadAndQuery(t: Target, s: Scope)
    ensures CacheKey(t, s) == KeyHead(t, s) + QUERY_MARK + EncodedQuery(StableQuery(t.query))
  {
    hide Join, EncodedQuery, StableQuery, Lower, ScopeText;
    var host, path, q := "host=" + Lower(t.host), "path=" + t.path, "query=" + EncodedQuery(StableQuery(t.query));
    var fields := [host, path, q];
    assert ScopeFields(s) + ObjectFields(t) + [QueryField(t)] == ScopeFields(s) + fields;
    JoinAppend(ScopeFields(s), fields, '|');
    JoinThree(host, path, q);
    assert ScopeText(s) == Join(ScopeFields(s), '|') by { ScopeTextIsJoin(s); }
    JoinedIsHead(ScopeText(s), Lower(t.host), t.path, EncodedQuery(StableQuery(t.query)));
  }

  lemma ScopeTextIsJoin(s: Scope)
    ensures ScopeText(s) == Join(ScopeFields(s), '|')
  {
  }

  lemma JoinThree(a: string, b: string, c: string)
    ensures Join([a, b, c], '|') == a + ['|'] + (b + ['|'] + c)
  {
    assert [a, b, c][1..] == [b, c] && [b, c][1..] == [c];
    assert Join([b, c], '|') == b + ['|'] + Join([c], '|');
  }

  lemma JoinedIsHead(scope: string, host: string, path: string, q: string)
    ensures scope + ['|'] + ("host=" + host + ['|'] + ("path=" + path + ['|'] + ("query=" + q))) ==
            scope + HOST_MARK + (host + PATH_MARK + path) + QUERY_MARK + q
  {
    assert ['|'] + "host=" == HOST_MARK && ['|'] + "path=" == PATH_MARK && ['|'] + "query=" == QUERY_MARK;
    Reassociate(scope, ['|'], "host=", host, "path=", path, "query=", q);
  }

  lemma Reassociate(a: string, bar: string, b: string, c: string, d: string, e: string, f: string, g: string)
    ensures a + bar + (b + c + bar + (d + e + bar + (f + g))) == a + (bar + b) + (c + (bar + d) + e) + (bar + f) + g
  {
    assert d + e + bar + (f + g) == d + e + (bar + f) + g;
    assert b + c + bar + (d + e + (bar + f) + g) == b + (c + (bar + d) + e) + (bar + f) + g;
  }

  lemma NoBarNoMark(x: string, n: string, i: int)
    requires '|' !in x && IsMark(n)
    ensures !MarkAt(x, n, i)
  {
    if MarkAt(x, n, i) { BarOnlyFirst(x, n, i); }
  }

  lemma MarkBehindField(p: string, x: string, n: string, i: int)
    requires '|' !in p && BarFirst(n) && MarkAt(p + x, n, i)
    ensures MarkAt(x, n, i - |p|)
  {
    BarOnlyFirst(p + x, n, i);
    assert forall k :: 0 <= k < |p| ==> (p + x)[k] == p[k] && p[k] in p;
    assert |p| <= i && (p + x)[|p|..] == x;
    assert x[i - |p|..i - |p| + |n|] == (p + x)[|p|..][i - |p|..i - |p| + |n|] == (p + x)[i..i + |n|];
  }

  /** A query mark in the scope's text is in one of its names. */
  lemma MarkInScope(s: Scope, i: int)
    requires NoQueryMark(s)
    ensures !MarkAt(ScopeText(s), QUERY_MARK, i)
  {
    hide ScopeText;
    ScopeTextIs(s);
    var rest := s.subject + AUTH_MARK + s.auth;
    assert ScopeText(s) == "tenant=" + (s.tenant + SUBJECT_MARK + rest);
    if MarkAt(ScopeText(s), QUERY_MARK, i) {
      MarkBehindField("tenant=", s.tenant + SUBJECT_MARK + rest, QUERY_MARK, i);
      MarkLies(s.tenant, SUBJECT_MARK, rest, QUERY_MARK, i - 7);
      MarkLies(s.subject, AUTH_MARK, s.auth, QUERY_MARK, i - 7 - |s.tenant| - 9);
    }
  }

  /** A query mark in a key is in the scope's text, or stands between the object and its query. */
  lemma MarkInKey(t: Target, s: Scope, i: int)
    requires t.Valid() && MarkAt(CacheKey(t, s), QUERY_MARK, i)
    ensures MarkAt(ScopeText(s), QUERY_MARK, i) || i == |KeyHead(t, s)|
  {
    hide EncodedQuery, StableQuery, ScopeText, CacheKey;
    var q := EncodedQuery(StableQuery(t.query));
    KeyIsHeadAndQuery(t, s);
    StableIsValid(t);
    EncodedHasNoBar(StableQuery(t.query));
    LowerKeepsOut(t.host, '|');
    var text := Lower(t.host) + PATH_MARK + t.path;
    MarkLies(KeyHead(t, s), QUERY_MARK, q, QUERY_MARK, i);
    NoBarNoMark(q, QUERY_MARK, i - |KeyHead(t, s)| - 7);
    if i != |KeyHead(t, s)| {
      MarkLies(ScopeText(s), HOST_MARK, text, QUERY_MARK, i);
      NoMarkInObject(Lower(t.host), t.path, i - |ScopeText(s)| - 6);
    }
  }

  lemma NoMarkInObject(host: string, path: string, i: int)
    requires '|' !in host && '|' !in path
    ensures !MarkAt(host + PATH_MARK + path, QUERY_MARK, i)
  {
    if MarkAt(host + PATH_MARK + path, QUERY_MARK, i) {
      MarkLies(host, PATH_MARK, path, QUERY_MARK, i);
      NoBarNoMark(host, QUERY_MARK, i);
      NoBarNoMark(path, QUERY_MARK, i - |host| - 6);
    }
  }

  /** What is cut off the key is its query, if no name in the scope holds the mark. */
  lemma CutIsHead(t: Target, s: Scope)
    requires t.Valid() && NoQueryMark(s)
    ensures CutBefore(CacheKey(t, s)) == KeyHead(t, s)
  {
    hide CacheKey, KeyHead, EncodedQuery, StableQuery, NoQueryMark, ScopeText;
    var key, h, q := CacheKey(t, s), KeyHead(t, s), EncodedQuery(StableQuery(t.query));
    KeyIsHeadAndQuery(t, s);
    assert key == h + (QUERY_MARK + q);
    CutIsAtMost(h, QUERY_MARK + q);
    var cut := CutBefore(key);
    assert key[|cut|..|cut| + 7] == QUERY_MARK;
    MarkInKey(t, s, |cut|);
    MarkInScope(s, |cut|);
    assert key[..|cut|] == cut && key[..|h|] == h;
  }

  /** A record of any scope goes with an object of this one exactly if it is a query variant of it in
      a scope with the same text, or the other scope's own names imitate the object. */
  lemma InvalidatesIff(t: Target, s: Scope, o: Target, u: Scope)
    requires t.Valid() && o.Valid() && NoQueryMark(s)
    ensures var same := ScopeText(s) == ScopeText(u) && SameUpToCase(t.host, o.host) && t.path == o.path;
            && (Invalidates(CacheKey(t, s), MetaKey(CacheKey(o, u))) <==> same || Imitates(u, t, s))
            && (Invalidates(CacheKey(t, s), BodyKey(CacheKey(o, u))) <==> same || Imitates(u, t, s))
  {
    hide CacheKey, CutBefore, ScopeText, Lower, EncodedQuery, StableQuery, MetaKey, BodyKey, KeyHead, NoQueryMark;
    LowerSameIff(t.host, o.host);
    CutIsHead(t, s);
    KeyIsHeadAndQuery(o, u);
    RecordPrefix(KeyHead(t, s) + QUERY_MARK, CacheKey(o, u));
    PrefixIff(t, s, o, u);
  }

  lemma PrefixIff(t: Target, s: Scope, o: Target, u: Scope)
    requires t.Valid() && o.Valid()
    ensures KeyHead(t, s) + QUERY_MARK <= CacheKey(o, u) <==>
            (ScopeText(s) == ScopeText(u) && Lower(t.host) == Lower(o.host) && t.path == o.path) || Imitates(u, t, s)
  {
    hide CacheKey, ScopeText, Lower, EncodedQuery, StableQuery;
    var p, key := KeyHead(t, s) + QUERY_MARK, CacheKey(o, u);
    KeyIsHeadAndQuery(o, u);
    var tail := HOST_MARK + (Lower(o.host) + PATH_MARK + o.path) + QUERY_MARK + EncodedQuery(StableQuery(o.query));
    assert key == ScopeText(u) + tail;
    if p <= key {
      assert key[|KeyHead(t, s)|..|KeyHead(t, s)| + 7] == QUERY_MARK;
      MarkInKey(o, u, |KeyHead(t, s)|);
      if |p| <= |ScopeText(u)| {
        assert p == key[..|p|] == ScopeText(u)[..|p|];
      } else {
        assert key[..|KeyHead(t, s)|] == KeyHead(t, s) == KeyHead(o, u);
        SameHeadSameObject(t, s, o, u);
      }
    }
  }

  lemma SameHeadSameObject(t: Target, s: Scope, o: Target, u: Scope)
    requires t.Valid() && o.Valid() && KeyHead(t, s) == KeyHead(o, u)
    ensures ScopeText(s) == ScopeText(u) && Lower(t.host) == Lower(o.host) && t.path == o.path
  {
    hide CacheKey, ScopeText, Lower, EncodedQuery, StableQuery, KeyHead;
    LowerSameIff(t.host, o.host);
    var t0, o0 := t.(query := map[]), o.(query := map[]);
    KeyIsHeadAndQuery(t0, s);
    KeyIsHeadAndQuery(o0, u);
    HeadIgnoresQuery(t, s);
    HeadIgnoresQuery(o, u);
    KeyCanonical(t0, s, o0, u);
  }

  lemma HeadIgnoresQuery(t: Target, s: Scope)
    ensures KeyHead(t.(query := map[]), s) == KeyHead(t, s)
  {
  }

  /** A name that holds the query mark makes a mutation remove every object of its scope. */
  lemma QueryMarkRemovesAll(t: Target, s: Scope, o: Target)
    requires !NoQueryMark(s)
    ensures Invalidates(CacheKey(t, s), MetaKey(CacheKey(o, s))) && Invalidates(CacheKey(t, s), BodyKey(CacheKey(o, s)))
  {
    hide CacheKey, ScopeText, Lower, EncodedQuery, StableQuery, MetaKey, BodyKey, CutBefore;
    var i := MarkOfScope(s);
    KeyStartsWithScope(t, s);
    KeyStartsWithScope(o, s);
    var key, text := CacheKey(t, s), ScopeText(s);
    var rest := key[i..];
    assert key == text[..i] + rest;
    assert rest[..7] == key[i..i + 7] == text[i..i + 7];
    CutIsAtMost(text[..i], rest);
    var cut := CutBefore(key) + QUERY_MARK;
    assert |cut| <= |text|;
    assert cut == key[..|cut|] == text[..|cut|] == CacheKey(o, s)[..|cut|];
    RecordPrefix(cut, CacheKey(o, s));
  }

  lemma KeyStartsWithScope(t: Target, s: Scope)
    ensures ScopeText(s) <= CacheKey(t, s)
  {
    hide CacheKey, ScopeText, Lower, EncodedQuery, StableQuery;
    KeyIsHeadAndQuery(t, s);
  }

  lemma MarkOfScope(s: Scope) returns (i: nat)
    requires !NoQueryMark(s)
    ensures MarkAt(ScopeText(s), QUERY_MARK, i)
  {
    hide ScopeText, MarkAt;
    Flatten(s);
    var front := "tenant=" + (s.tenant + SUBJECT_MARK);
    if j :| MarkAt(s.tenant, QUERY_MARK, j) {
      var rest := SUBJECT_MARK + s.subject + AUTH_MARK + s.auth;
      i := MarkStays("tenant=", s.tenant, rest, j);
      assert ScopeText(s) == "tenant=" + s.tenant + rest;
    } else if j :| MarkAt(s.subject, QUERY_MARK, j) {
      var rest := AUTH_MARK + s.auth;
      i := MarkStays(front, s.subject, rest, j);
      assert ScopeText(s) == front + s.subject + rest;
    } else {
      var j :| MarkAt(s.auth, QUERY_MARK, j);
      i := MarkStays(front + s.subject + AUTH_MARK, s.auth, "", j);
      assert ScopeText(s) == front + s.subject + AUTH_MARK + s.auth + "";
    }
  }

  lemma MarkStays(x: string, y: string, z: string, j: int) returns (i: nat)
    requires MarkAt(y, QUERY_MARK, j)
    ensures MarkAt(x + y + z, QUERY_MARK, i)
  {
    i := |x| + j;
    assert (x + y + z)[i..i + 7] == y[j..j + 7];
  }

  /** So within one scope a mutation removes only query variants of its object exactly if no name of
      the scope holds the query mark. */
  lemma RemovesOnlyVariantsIff(t: Target, s: Scope)
    requires t.Valid()
    ensures (forall o: Target | o.Valid() ::
               Invalidates(CacheKey(t, s), MetaKey(CacheKey(o, s))) ==>
                   SameUpToCase(t.host, o.host) && t.path == o.path)
       <==> NoQueryMark(s)
  {
    hide CacheKey, ScopeText, Lower, Invalidates, NoQueryMark, MetaKey, BodyKey;
    if NoQueryMark(s) {
      forall o: Target | o.Valid() && Invalidates(CacheKey(t, s), MetaKey(CacheKey(o, s)))
        ensures SameUpToCase(t.host, o.host) && t.path == o.path
      {
        InvalidatesIff(t, s, o, s);
        NobodyImitatesItself(t, s);
      }
    } else {
      var o := Target(t.host, t.path + "x", map[]);
      QueryMarkRemovesAll(t, s, o);
      assert o.Valid() && |o.path| != |t.path|;
    }
  }

  lemma NobodyImitatesItself(t: Target, s: Scope)
    ensures !Imitates(s, t, s)
  {
    hide ScopeText, Lower;
  }

  /** And for every object there is a scope all of whose objects go with it. */
  lemma Imitator(t: Target, s: Scope) returns (u: Scope)
    requires t.Valid() && NoQueryMark(s)
    ensures u != s && Imitates(u, t, s)
    ensures forall o: Target | o.Valid() :: Invalidates(CacheKey(t, s), MetaKey(CacheKey(o, u)))
  {
    hide CacheKey, ScopeText, Lower, Invalidates, NoQueryMark, MetaKey, BodyKey;
    var text := HOST_MARK + (Lower(t.host) + PATH_MARK + t.path);
    u := Scope(s.tenant, s.subject, s.auth + (text + QUERY_MARK));
    assert |u.auth| > |s.auth|;
    Flatten(s);
    Flatten(u);
    assert ScopeText(u) == ScopeText(s) + (text + QUERY_MARK);
    assert ScopeText(s) + (text + QUERY_MARK) == KeyHead(t, s) + QUERY_MARK;
    forall o: Target | o.Valid() ensures Invalidates(CacheKey(t, s), MetaKey(CacheKey(o, u))) {
      InvalidatesIff(t, s, o, u);
    }
  }

  predicate NoBar(s: Scope) {
    '|' !in s.tenant && '|' !in s.subject && '|' !in s.auth
  }

  /** Among scopes without a vertical bar it removes all and only the records of query variants of
      the same object in the same scope: both the metadata and the body record. */
  lemma InvalidatesExactlyTheVariants(t: Target, s: Scope, o: Target, u: Scope)
    requires t.Valid() && o.Valid() && NoBar(s) && NoBar(u)
    ensures Invalidates(CacheKey(t, s), MetaKey(CacheKey(o, u)))
       <==> s == u && SameUpToCase(t.host, o.host) && t.path == o.path
    ensures Invalidates(CacheKey(t, s), BodyKey(CacheKey(o, u)))
       <==> s == u && SameUpToCase(t.host, o.host) && t.path == o.path
  {
    hide CacheKey, CutBefore, Head, HeadFields, Lower, EncodedQuery, StableQuery, MetaKey, BodyKey, NoneHas;
    LowerSameIff(t.host, o.host);
    var f, g := HeadFields(t, s), HeadFields(o, u);
    HeadFieldsShape(t, s);
    HeadFieldsShape(o, u);
    KeyHasHead(t, s);
    KeyHasHead(o, u);
    CutFindsQuery(f, EncodedQuery(StableQuery(t.query)));
    RecordPrefix(Head(f) + QUERY_MARK, CacheKey(o, u));
    HeadPrefix(f, g, EncodedQuery(StableQuery(o.query)));
    SameHead(t, s, o, u);
  }
}
