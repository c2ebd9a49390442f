/** How long a stored S3 response stays fresh (s3/server.go), with the 64-bit arithmetic of
    durations. Compare section 5.2.2.1 of RFC 9111 (max-age). */
module S3Ttl {
  import opened Numbers
  import opened Text

  const SECOND: int := 1_000_000_000

  /** Configured lifetimes in nanoseconds. Defaults replace zeros and negatives are refused, so
      all three are positive; durations have 64 bits. */
  datatype Lifetimes = Lifetimes(unversioned: int, versioned: int, max: int)
  {
    predicate Valid() {
      0 < unversioned < INT64 && 0 < versioned < INT64 && 0 < max < INT64
    }

    function Longest(): int {
      if unversioned >= versioned && unversioned >= max then unversioned
      else if versioned >= max then versioned
      else max
    }
  }

  function TrimLeft(s: string): string {
    if s != "" && IsSpace(s[0]) then TrimLeft(s[1..]) else s
  }

  function TrimRight(s: string): string {
    if s != "" && IsSpace(s[|s| - 1]) then TrimRight(s[..|s| - 1]) else s
  }

  /** strings.TrimSpace on ASCII. */
  function Trim(s: string): string {
    TrimRight(TrimLeft(s))
  }

  const MAX_AGE: string := "max-age="

  function Directive(part: string): string {
    Trim(Lower(part))
  }

  /** The first max-age directive decides; one that is not a number, does not fit, or is negative
      counts as absent. */
  function MaxAgeIn(parts: seq<string>): (r: Option<int>)
    ensures r.Some? ==> 0 <= r.value < INT64
  {
    if parts == [] then None
    else
      var part := Directive(parts[0]);
      if !(MAX_AGE <= part) then MaxAgeIn(parts[1..])
      else
        var seconds := ParseInt(Trim(part[|MAX_AGE|..]), 10, INT64);
        if seconds.Some? && seconds.value >= 0 then seconds else None
  }

  function MaxAge(cacheControl: string): (r: Option<int>)
    ensures r.Some? ==> 0 <= r.value < INT64
  {
    MaxAgeIn(SplitOn(cacheControl, ','))
  }

  /** Two's complement arithmetic on 64 bits. */
  function Wrap64(n: int): (r: int)
    ensures -0x8000_0000_0000_0000 <= r < 0x8000_0000_0000_0000
  {
    (n + 0x8000_0000_0000_0000) % 0x1_0000_0000_0000_0000 - 0x8000_0000_0000_0000
  }

  function Ttl(l: Lifetimes, cacheControl: string, hasVersion: bool): int {
    match MaxAge(cacheControl)
    case Some(seconds) =>
      var ttl := Wrap64(seconds * SECOND);
      if l.max > 0 && ttl > l.max then l.max else ttl
    case None => if hasVersion then l.versioned else l.unversioned
  }

  /** No response stays fresh longer than the longest configured lifetime, also when the
      multiplication wraps around. */
  lemma TtlBounded(l: Lifetimes, cacheControl: string, hasVersion: bool)
    requires l.Valid()
    ensures Ttl(l, cacheControl, hasVersion) <= l.Longest()
  {
  }

  const LAST_EXACT: int := 9_223_372_036

  lemma WrapExact(n: int)
    ensures 0 <= n < INT64 ==> Wrap64(n) == n
  {
  }

  /** The lifetime is the response's max-age, capped, exactly when the number of seconds fits a
      64-bit duration or the wrapped product happens to reach the cap. */
  lemma TtlIsCappedMaxAge(l: Lifetimes, cacheControl: string, hasVersion: bool)
    requires l.Valid() && MaxAge(cacheControl).Some?
    ensures var seconds := MaxAge(cacheControl).value;
            (Ttl(l, cacheControl, hasVersion) == if seconds * SECOND > l.max then l.max else seconds * SECOND)
            <==> (seconds <= LAST_EXACT || Wrap64(seconds * SECOND) >= l.max)
  {
    hide Wrap64, MaxAge;
    var seconds := MaxAge(cacheControl).value;
    var product := seconds * SECOND;
    WrapExact(product);
    if seconds <= LAST_EXACT {
      assert product < INT64;
    } else {
      assert product >= INT64;
    }
  }

  lemma {:induction false} SkipsOtherDirectives(before: seq<string>, rest: seq<string>)
    requires forall i :: 0 <= i < |before| ==> !(MAX_AGE <= Directive(before[i]))
    ensures MaxAgeIn(before + rest) == MaxAgeIn(rest)
  {
    if before == [] {
      assert before + rest == rest;
    } else {
      assert (before + rest)[1..] == before[1..] + rest;
      SkipsOtherDirectives(before[1..], rest);
    }
  }

  /** A max-age directive is found wherever it stands in the list, in any case and with white
      space around it; later ones do not matter. */
  lemma MaxAgeFound(before: seq<string>, part: string, after: seq<string>, n: nat)
    requires NoneHas(before + [part] + after, ',') && n < INT64
    requires forall i :: 0 <= i < |before| ==> !(MAX_AGE <= Directive(before[i]))
    requires MAX_AGE <= Directive(part) && Trim(Directive(part)[|MAX_AGE|..]) == Decimal(n)
    ensures MaxAge(Join(before + [part] + after, ',')) == Some(n)
  {
    SplitJoin(before + [part] + after, ',');
    assert before + [part] + after == before + ([part] + after);
    SkipsOtherDirectives(before, [part] + after);
    DecimalRoundTrip(n, INT64);
  }

  /** Lower case and trimming leave such text alone. */
  predicate Settled(s: string) {
    forall i :: 0 <= i < |s| ==> !IsSpace(s[i]) && !('A' <= s[i] <= 'Z')
  }

  lemma {:induction false} SettledStays(s: string)
    requires Settled(s)
    ensures Lower(s) == s && Trim(s) == s
  {
    if s != "" { SettledStays(s[1..]); }
  }

  /** A header that is just a max-age in decimal. */
  lemma PlainMaxAge(n: nat)
    requires n < INT64
    ensures MaxAge(MAX_AGE + Decimal(n)) == Some(n)
  {
    hide Lower, Trim, MaxAge, Decimal;
    var part := MAX_AGE + Decimal(n);
    SettledStays(part);
    SettledStays(Decimal(n));
    assert part[|MAX_AGE|..] == Decimal(n);
    assert [] + [part] + [] == [part] && Join([part], ',') == part;
    MaxAgeFound([], part, [], n);
  }

  /** The largest max-age there is, 9223372036854775807 seconds, makes a response stale a second
      before it is stored, whatever the configuration. */
  lemma LargestMaxAgeIsNegative(l: Lifetimes, hasVersion: bool)
    requires l.Valid()
    ensures INT64 - 1 == 9_223_372_036_854_775_807
    ensures Ttl(l, MAX_AGE + Decimal(INT64 - 1), hasVersion) == -SECOND
  {
    hide MaxAge, Wrap64;
    PlainMaxAge(INT64 - 1);
    LargestWraps();
  }

  lemma LargestWraps()
    ensures Wrap64((INT64 - 1) * SECOND) == -SECOND
  {
  }

  // ----- What the header says, spelled out -----

  predicate Blank(s: string) {
    forall i :: 0 <= i < |s| ==> IsSpace(s[i])
  }

  /** White space, the name in any case, and the rest. */
  predicate SaysMaxAge(part: string, white: string, name: string, rest: string) {
    part == white + (name + rest) && Blank(white) && SameUpToCase(name, "max-age=")
  }

  ghost predicate IsMaxAge(part: string) {
    exists white, name, rest :: SaysMaxAge(part, white, name, rest)
  }

  lemma {:induction false} TrimLeftCuts(s: string) returns (n: nat)
    ensures n <= |s| && TrimLeft(s) == s[n..] && Blank(s[..n]) && (n < |s| ==> !IsSpace(s[n]))
  {
    n := 0;
    if s != "" && IsSpace(s[0]) {
      var m := TrimLeftCuts(s[1..]);
      n := m + 1;
      forall i | 0 <= i < n ensures IsSpace(s[..n][i]) {
        assert i > 0 ==> s[..n][i] == s[1..][..m][i - 1];
      }
    }
  }

  lemma {:induction false} TrimRightCuts(s: string) returns (n: nat)
    ensures n <= |s| && TrimRight(s) == s[..n] && Blank(s[n..]) && (n > 0 ==> !IsSpace(s[n - 1]))
  {
    n := |s|;
    if s != "" && IsSpace(s[|s| - 1]) {
      n := TrimRightCuts(s[..|s| - 1]);
      forall i | 0 <= i < |s| - n ensures IsSpace(s[n..][i]) {
        assert i < |s| - n - 1 ==> s[n..][i] == s[..|s| - 1][n..][i];
      }
    }
  }

  /** Where the white space at the front ends. */
  lemma FrontIs(s: string, n: nat, m: nat)
    requires n <= |s| && Blank(s[..n]) && (n < |s| ==> !IsSpace(s[n]))
    requires m < |s| && Blank(s[..m]) && !IsSpace(s[m])
    ensures n == m
  {
    forall i | 0 <= i < n ensures IsSpace(s[i]) { assert s[..n][i] == s[i]; }
    forall i | 0 <= i < m ensures IsSpace(s[i]) { assert s[..m][i] == s[i]; }
  }

  /** And where it begins at the end. */
  lemma EndIs(s: string, n: nat, m: nat)
    requires n <= |s| && Blank(s[n..]) && (n > 0 ==> !IsSpace(s[n - 1]))
    requires 0 < m <= |s| && Blank(s[m..]) && !IsSpace(s[m - 1])
    ensures n == m
  {
    forall i | n <= i < |s| ensures IsSpace(s[i]) { assert s[n..][i - n] == s[i]; }
    forall i | m <= i < |s| ensures IsSpace(s[i]) { assert s[m..][i - m] == s[i]; }
  }

  /** Trimming takes the white space at both ends away and leaves text that has none there. */
  lemma TrimsTo(white: string, text: string, more: string)
    requires Blank(white) && Blank(more) && text != "" && !IsSpace(text[0]) && !IsSpace(text[|text| - 1])
    ensures Trim(white + text + more) == text
  {
    hide Blank, IsSpace;
    var s, t := white + text + more, text + more;
    assert s[..|white|] == white && s[|white|] == text[0] && s[|white|..] == t;
    var n := TrimLeftCuts(s);
    FrontIs(s, n, |white|);
    assert t[|text|..] == more && t[|text| - 1] == text[|text| - 1] && t[..|text|] == text;
    var m := TrimRightCuts(t);
    EndIs(t, m, |text|);
  }

  lemma {:induction false} LowerJoins(a: string, b: string)
    ensures Lower(a + b) == Lower(a) + Lower(b)
  {
    if a == "" {
      assert a + b == b;
    } else {
      assert (a + b)[1..] == a[1..] + b;
      LowerJoins(a[1..], b);
    }
  }

  lemma {:induction false} LowerBlank(s: string)
    requires Blank(s)
    ensures Lower(s) == s
  {
    if s != "" {
      assert IsSpace(s[0]);
      forall i | 0 <= i < |s| - 1 ensures IsSpace(s[1..][i]) { assert IsSpace(s[i + 1]); }
      LowerBlank(s[1..]);
    }
  }

  lemma BeginsWithTheName(part: string)
    requires MAX_AGE <= Directive(part)
    ensures IsMaxAge(part)
  {
    hide TrimLeft, TrimRight, Lower, SameUpToCase;
    var low := Lower(part);
    var n := TrimLeftCuts(low);
    var m := TrimRightCuts(low[n..]);
    var white, rest := part[..n], part[n..];
    LowerPrefix(part, n);
    assert Lower(rest) == low[n..] && MAX_AGE <= low[n..][..m] && MAX_AGE <= low[n..];
    assert Lower(MAX_AGE) == MAX_AGE by { SettledStays(MAX_AGE); }
    BeginsIff(MAX_AGE, rest);
    BlankLower(white, low[..n]);
    assert rest == rest[..|MAX_AGE|] + rest[|MAX_AGE|..] && part == white + rest;
    assert SaysMaxAge(part, white, rest[..|MAX_AGE|], rest[|MAX_AGE|..]);
  }

  /** A part of the header that does not begin with the name of the directive is passed over. */
  lemma OtherPart(part: string)
    requires !IsMaxAge(part)
    ensures !(MAX_AGE <= Directive(part))
  {
    hide Directive, IsMaxAge;
    if MAX_AGE <= Directive(part) { BeginsWithTheName(part); }
  }

  lemma BlankLower(s: string, low: string)
    requires low == Lower(s) && Blank(low)
    ensures Blank(s)
  {
    forall i | 0 <= i < |s| ensures IsSpace(s[i]) {
      LowerAt(s, i);
      assert IsSpace(low[i]);
    }
  }

  lemma NumberStays(n: nat)
    ensures Settled(Decimal(n)) && Settled("-" + Decimal(n)) && Decimal(n) != ""
  {
  }

  /** The directive with white space around it and around its value. */
  lemma DirectiveOf(white: string, name: string, mid: string, value: string, end: string)
    requires Blank(white) && Blank(mid) && Blank(end) && SameUpToCase(name, MAX_AGE) && Settled(value) && value != ""
    ensures var part := white + (name + (mid + value + end));
            MAX_AGE <= Directive(part) && Trim(Directive(part)[|MAX_AGE|..]) == value
  {
    hide TrimLeft, TrimRight, Lower, SameUpToCase;
    SettledStays(value);
    assert Lower(MAX_AGE) == MAX_AGE by { SettledStays(MAX_AGE); }
    LowerSameIff(name, MAX_AGE);
    LowerBlank(white);
    LowerBlank(mid);
    LowerBlank(end);
    LowerJoins(white, name + (mid + value + end));
    LowerJoins(name, mid + value + end);
    LowerJoins(mid + value, end);
    LowerJoins(mid, value);
    var text := MAX_AGE + mid + value;
    assert white + (MAX_AGE + (mid + value + end)) == white + text + end;
    assert text[|text| - 1] == value[|value| - 1] && text[0] == 'm';
    TrimsTo(white, text, end);
    assert text[|MAX_AGE|..] == mid + value + "";
    TrimsTo(mid, value, "");
  }

  /** The lifetime a header gives: the seconds of its first max-age directive, wherever it stands, in
      any case and with white space around it, capped; for every number whose nanoseconds fit in
      64 bits. */
  lemma LifetimeOf(l: Lifetimes, hasVersion: bool, before: seq<string>, white: string, name: string, mid: string,
                   n: nat, end: string, after: seq<string>)
    requires l.Valid() && n <= 9_223_372_036
    requires Blank(white) && Blank(mid) && Blank(end) && SameUpToCase(name, MAX_AGE)
    requires forall i :: 0 <= i < |before| ==> !IsMaxAge(before[i])
    requires NoneHas(before + [white + (name + (mid + Decimal(n) + end))] + after, ',')
    ensures var header := Join(before + [white + (name + (mid + Decimal(n) + end))] + after, ',');
            Ttl(l, header, hasVersion) == if n * 1_000_000_000 > l.max then l.max else n * 1_000_000_000
  {
    hide Directive, Decimal, Wrap64, Join, SameUpToCase, IsMaxAge, Lifetimes.Valid;
    assert l.max > 0 by { PositiveCap(l); }
    var part := white + (name + (mid + Decimal(n) + end));
    NumberStays(n);
    DirectiveOf(white, name, mid, Decimal(n), end);
    forall i | 0 <= i < |before| ensures !(MAX_AGE <= Directive(before[i])) { OtherPart(before[i]); }
    MaxAgeFound(before, part, after, n);
    WrapExact(n * SECOND);
    assert n * SECOND < INT64;
  }

  /** A first directive whose number is negative or too large counts as absent, also if others follow. */
  lemma UnusableMaxAge(l: Lifetimes, hasVersion: bool, before: seq<string>, white: string, name: string, mid: string,
                       value: string, n: nat, end: string, after: seq<string>)
    requires (value == "-" + Decimal(n) && n > 0) || (value == Decimal(n) && n >= INT64)
    requires Blank(white) && Blank(mid) && Blank(end) && SameUpToCase(name, MAX_AGE)
    requires forall i :: 0 <= i < |before| ==> !IsMaxAge(before[i])
    requires NoneHas(before + [white + (name + (mid + value + end))] + after, ',')
    ensures var header := Join(before + [white + (name + (mid + value + end))] + after, ',');
            Ttl(l, header, hasVersion) == if hasVersion then l.versioned else l.unversioned
  {
    hide Directive, Decimal, Join, SameUpToCase, IsMaxAge, Trim;
    var part := white + (name + (mid + value + end));
    NumberStays(n);
    DirectiveOf(white, name, mid, value, end);
    forall i | 0 <= i < |before| ensures !(MAX_AGE <= Directive(before[i])) { OtherPart(before[i]); }
    var parts := before + [part] + after;
    SplitJoin(parts, ',');
    assert parts == before + ([part] + after);
    SkipsOtherDirectives(before, [part] + after);
    DecimalRoundTrip(n, INT64);
    DecimalMagnitude(n);
    assert ("-" + Decimal(n))[1..] == Decimal(n);
  }

  lemma PositiveCap(l: Lifetimes)
    requires l.Valid()
    ensures l.max > 0
  {
  }

  /** Without such a directive an object asked for by version lives for the versioned lifetime, and
      any other for the other one. */
  lemma LifetimeWithoutMaxAge(l: Lifetimes, hasVersion: bool, parts: seq<string>)
    requires parts != [] && NoneHas(parts, ',') && forall i :: 0 <= i < |parts| ==> !IsMaxAge(parts[i])
    ensures Ttl(l, Join(parts, ','), hasVersion) == if hasVersion then l.versioned else l.unversioned
  {
    hide Directive, Join, IsMaxAge;
    SplitJoin(parts, ',');
    forall i | 0 <= i < |parts| ensures !(MAX_AGE <= Directive(parts[i])) { OtherPart(parts[i]); }
    assert parts + [] == parts;
    SkipsOtherDirectives(parts, []);
  }
}
