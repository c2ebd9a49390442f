/** Byte ranges of cached objects (s3/entry.go), against section 14.1.2 of RFC 9110. */
module S3Range {
  import opened Numbers
  import opened Text

  /** The first and last position of an accepted range; both lie inside the object. */
  function ParseRange(value: string, total: int): (r: Option<(int, int)>)
    requires total < INT64
    ensures r.Some? ==> 0 <= r.value.0 <= r.value.1 < total
  {
    if total <= 0 || !("bytes=" <= value) || ',' in value then None
    else
      var parts := SplitOn(value[6..], '-');
      if |parts| != 2 then None
      else if parts[0] == "" then
        var suffix := ParseInt(parts[1], 10, INT64);
        if suffix.None? || suffix.value <= 0 then None
        else
          var length := if suffix.value > total then total else suffix.value;
          Some((total - length, total - 1))
      else
        var start := ParseInt(parts[0], 10, INT64);
        if start.None? || start.value < 0 || start.value >= total then None
        else if parts[1] == "" then Some((start.value, total - 1))
        else
          var last := ParseInt(parts[1], 10, INT64);
          if last.None? || last.value < start.value then None
          else Some((start.value, if last.value >= total then total - 1 else last.value))
  }

  // ----- The standard's single ranges -----

  predicate IsDigits(d: string) {
    d != "" && forall i :: 0 <= i < |d| ==> '0' <= d[i] <= '9'
  }

  lemma {:induction false} DigitsHaveMagnitude(d: string)
    requires forall i :: 0 <= i < |d| ==> '0' <= d[i] <= '9'
    ensures Magnitude(d, 10).Some?
  {
    if d != "" {
      DigitsHaveMagnitude(d[..|d| - 1]);
    }
  }

  function ValueOf(d: string): nat
    requires IsDigits(d)
  {
    DigitsHaveMagnitude(d);
    Magnitude(d, 10).value
  }

  /** int-range and suffix-range of section 14.1.1 of RFC 9110; the numbers are digit strings. */
  datatype RangeSpec = FromTo(first: string, last: string) | From(first: string) | Suffix(length: string)
  {
    predicate Valid() {
      match this
      case FromTo(a, b) => IsDigits(a) && IsDigits(b)
      case From(a) => IsDigits(a)
      case Suffix(n) => IsDigits(n)
    }

    function Text(): (t: string)
      ensures t != ""
    {
      match this
      case FromTo(a, b) => "bytes=" + (a + "-" + b)
      case From(a) => "bytes=" + (a + "-" + "")
      case Suffix(n) => "bytes=" + ("" + "-" + n)
    }

    /** The positions the standard selects from a representation of the given length. A range
        whose last position precedes its first is invalid, and one that selects no byte is
        unsatisfiable. */
    function Selected(total: nat): Option<(int, int)>
      requires Valid()
    {
      match this
      case FromTo(a, b) =>
        if ValueOf(b) < ValueOf(a) || ValueOf(a) >= total then None
        else Some((ValueOf(a), if ValueOf(b) >= total then total - 1 else ValueOf(b)))
      case From(a) => if ValueOf(a) >= total then None else Some((ValueOf(a), total - 1))
      case Suffix(n) =>
        if ValueOf(n) == 0 || total == 0 then None
        else Some((if ValueOf(n) >= total then 0 else total - ValueOf(n), total - 1))
    }

    /** The standard clamps these, but they do not fit the width the parser reads. */
    predicate ClampedBeyondWidth(total: nat)
      requires Valid()
    {
      match this
      case FromTo(a, b) => ValueOf(a) < total && ValueOf(b) >= INT64
      case From(a) => false
      case Suffix(n) => total > 0 && ValueOf(n) >= INT64
    }
  }

  lemma ParseDigits(d: string)
    requires IsDigits(d)
    ensures ParseInt(d, 10, INT64) == if ValueOf(d) < INT64 then Some(ValueOf(d)) else None
  {
    assert d[0] != '-' && d[0] != '+';
    DigitsHaveMagnitude(d);
  }

  lemma SplitAtSeparator(a: string, b: string, sep: char)
    requires sep !in a && sep !in b
    ensures SplitOn(a + [sep] + b, sep) == [a, b]
  {
    SplitWithout(a, sep);
    SplitWithout(b, sep);
    SplitAppend(a, b, sep);
  }

  lemma ParseTwoParts(a: string, b: string, total: int)
    requires total < INT64 && (a == "" || IsDigits(a)) && (b == "" || IsDigits(b))
    ensures var value := "bytes=" + (a + "-" + b);
            "bytes=" <= value && ',' !in value && SplitOn(value[6..], '-') == [a, b]
  {
    var value := "bytes=" + (a + "-" + b);
    assert value[6..] == a + "-" + b;
    SplitAtSeparator(a, b, '-');
    forall i | 0 <= i < |value| ensures value[i] != ',' {
      if i < 6 { assert value[i] == "bytes="[i]; }
      else if i < 6 + |a| { assert value[i] == a[i - 6]; }
      else if i > 6 + |a| { assert value[i] == b[i - 7 - |a|]; }
    }
  }

  /** For every range the standard's grammar allows, the parser selects what the standard selects
      unless a number that only needs clamping does not fit in 64 bits; those it refuses. */
  lemma SelectsWhatTheStandardSelects(spec: RangeSpec, total: nat)
    requires spec.Valid() && total < INT64
    ensures ParseRange(spec.Text(), total) == spec.Selected(total)
       <==> !(spec.ClampedBeyondWidth(total) && spec.Selected(total).Some?)
    ensures spec.ClampedBeyondWidth(total) ==> ParseRange(spec.Text(), total) == None
  {
    hide ParseInt, SplitOn, ValueOf;
    match spec
    case FromTo(a, b) => ParseTwoParts(a, b, total); ParseDigits(a); ParseDigits(b);
    case From(a) => ParseTwoParts(a, "", total); ParseDigits(a);
    case Suffix(n) => ParseTwoParts("", n, total); ParseDigits(n);
  }

  lemma {:induction false} MagnitudeMeansDigits(d: string)
    requires Magnitude(d, 10).Some?
    ensures forall i :: 0 <= i < |d| ==> '0' <= d[i] <= '9'
  {
    if d != "" { MagnitudeMeansDigits(d[..|d| - 1]); }
  }

  lemma ParsedMeansDigits(d: string)
    requires ParseInt(d, 10, INT64).Some? && '-' !in d && '+' !in d
    ensures IsDigits(d)
  {
    assert d[0] in d;
    MagnitudeMeansDigits(d);
  }

  /** The two parts of an accepted text. */
  lemma AcceptedParts(value: string, total: int) returns (a: string, b: string)
    requires total < INT64 && ParseRange(value, total).Some?
    ensures value == "bytes=" + (a + "-" + b) && '-' !in a && '-' !in b
    ensures a != "" ==> ParseInt(a, 10, INT64).Some?
    ensures b != "" ==> ParseInt(b, 10, INT64).Some?
    ensures a != "" || b != ""
  {
    hide ParseInt, SplitOn;
    var parts := SplitOn(value[6..], '-');
    JoinSplit(value[6..], '-');
    SplitFree(value[6..], '-');
    a, b := parts[0], parts[1];
    assert parts[1..] == [b];
    assert value == "bytes=" + value[6..];
    assert ParseInt("", 10, INT64).None? by { EmptyIsNoNumber(); }
  }

  lemma EmptyIsNoNumber()
    ensures ParseInt("", 10, INT64).None?
  {
  }

  lemma TextHasNoPlus(spec: RangeSpec)
    requires spec.Valid()
    ensures '+' !in spec.Text()
  {
    assert '+' !in "bytes=" && '+' !in "-";
  }

  /** An accepted text is a range of the standard exactly if it holds no plus sign, and then what is
      selected is what the standard selects: numbers may carry a sign the grammar does not have. */
  lemma AcceptedIsStandardIff(value: string, total: nat)
    requires total < INT64 && ParseRange(value, total).Some?
    ensures (exists spec: RangeSpec :: spec.Valid() && spec.Text() == value) <==> '+' !in value
    ensures forall spec: RangeSpec :: spec.Valid() && spec.Text() == value ==>
              ParseRange(value, total) == spec.Selected(total)
  {
    hide ParseRange, ParseInt, RangeSpec.Selected, RangeSpec.ClampedBeyondWidth;
    if '+' !in value {
      var a, b := AcceptedParts(value, total);
      forall c | c in a || c in b ensures c in value { }
      if a != "" { ParsedMeansDigits(a); }
      if b != "" { ParsedMeansDigits(b); }
      var spec := if a == "" then Suffix(b) else if b == "" then From(a) else FromTo(a, b);
      assert spec.Valid() && spec.Text() == value;
    }
    forall spec: RangeSpec | spec.Valid() && spec.Text() == value
      ensures '+' !in value && ParseRange(value, total) == spec.Selected(total)
    {
      TextHasNoPlus(spec);
      SelectsWhatTheStandardSelects(spec, total);
    }
  }

  /** A text outside the grammar that is accepted. */
  lemma PlusSignAccepted()
    ensures ParseRange("bytes=+1-+2", 10) == Some((1, 2))
  {
    hide SplitOn;
    var a, b := "+1", "+2";
    assert "bytes=+1-+2" == "bytes=" + (a + ['-'] + b);
    assert ("bytes=" + (a + ['-'] + b))[6..] == a + ['-'] + b;
    SplitAtSeparator(a, b, '-');
    assert a[1..] == "1" && b[1..] == "2" && "1"[..0] == "" && "2"[..0] == "";
    assert Magnitude("", 10) == Some(0);
    assert Magnitude("1", 10) == Some(1) && Magnitude("2", 10) == Some(2);
  }

  // ----- Serving -----

  datatype Response =
    | Whole(bytes: string)
    | Partial(bytes: string, start: int, end: int, total: int)
    | Unsatisfiable(total: int)

  /** The body part of serveEntry: no Range header gives the whole file. */
  function ServeBody(range: string, body: string): (r: Response)
    requires |body| < INT64
    ensures r.Partial? ==> 0 <= r.start <= r.end < |body| == r.total && r.bytes == body[r.start..r.end + 1]
  {
    if range == "" then Whole(body)
    else
      match ParseRange(range, |body|)
      case None => Unsatisfiable(|body|)
      case Some((start, end)) => Partial(body[start..][..end - start + 1], start, end, |body|)
  }

  /** Without a Range header the answer is the whole body. With a single range of the standard it is
      exactly the bytes the standard selects, labelled with their positions and the length of the
      body, or it says that length where nothing is selected; and so it does for every text that is
      not accepted. */
  lemma ServesWhatTheStandardSelects(spec: RangeSpec, text: string, body: string)
    requires |body| < INT64
    ensures ServeBody("", body) == Whole(body)
    ensures text != "" && ParseRange(text, |body|).None? ==> ServeBody(text, body) == Unsatisfiable(|body|)
    ensures spec.Valid() && !spec.ClampedBeyondWidth(|body|) ==>
              match spec.Selected(|body|)
              case None => ServeBody(spec.Text(), body) == Unsatisfiable(|body|)
              case Some((first, last)) =>
                && 0 <= first <= last < |body|
                && ServeBody(spec.Text(), body) == Partial(body[first..last + 1], first, last, |body|)
  {
    hide ParseRange, RangeSpec.Text, RangeSpec.Selected, RangeSpec.ClampedBeyondWidth;
    if spec.Valid() && !spec.ClampedBeyondWidth(|body|) {
      SelectsWhatTheStandardSelects(spec, |body|);
      match spec.Selected(|body|)
      case None =>
      case Some((first, last)) => assert body[first..][..last - first + 1] == body[first..last + 1];
    }
  }

  function Between(first: nat, limit: nat): string
    requires first < limit
  {
    FromTo(Decimal(first), Decimal(limit - 1)).Text()
  }

  lemma ParsesBetween(first: nat, limit: nat, total: nat)
    requires first < limit <= total < INT64
    ensures ParseRange(Between(first, limit), total) == Some((first, limit - 1))
  {
    hide ParseRange, RangeSpec.Text;
    var spec := FromTo(Decimal(first), Decimal(limit - 1));
    DecimalMagnitude(first);
    DecimalMagnitude(limit - 1);
    SelectsWhatTheStandardSelects(spec, total);
  }

  lemma ServesBetween(first: nat, limit: nat, body: string)
    requires first < limit <= |body| < INT64
    ensures ServeBody(Between(first, limit), body) == Partial(body[first..limit], first, limit - 1, |body|)
  {
    hide ParseRange, RangeSpec.Text;
    ParsesBetween(first, limit, |body|);
    assert body[first..][..limit - first] == body[first..limit];
  }

  predicate Tiles(cuts: seq<nat>, total: nat) {
    |cuts| >= 1 && cuts[0] == 0 && cuts[|cuts| - 1] == total &&
    forall i :: 0 <= i < |cuts| - 1 ==> cuts[i] < cuts[i + 1]
  }

  /** The answers to the ranges between consecutive cuts, joined. */
  function Joined(cuts: seq<nat>, body: string): string
    requires |cuts| >= 1 && |body| < INT64
    requires forall i :: 0 <= i < |cuts| - 1 ==> cuts[i] < cuts[i + 1]
  {
    if |cuts| == 1 then ""
    else
      var n := |cuts|;
      var r := ServeBody(Between(cuts[n - 2], cuts[n - 1]), body);
      Joined(cuts[..n - 1], body) + if r.Partial? then r.bytes else ""
  }

  lemma {:induction false} CutsIncrease(cuts: seq<nat>, i: nat, j: nat)
    requires i <= j < |cuts| && forall k :: 0 <= k < |cuts| - 1 ==> cuts[k] < cuts[k + 1]
    ensures cuts[i] <= cuts[j]
    decreases j - i
  {
    if i < j { CutsIncrease(cuts, i, j - 1); assert cuts[j - 1] < cuts[j - 1 + 1]; }
  }

  /** A client that asks for ranges covering the object end to end, writing the positions in
      decimal, and joins the answers has the cached body. */
  lemma {:induction false} RangesReassemble(cuts: seq<nat>, body: string)
    requires |body| < INT64 && |cuts| >= 1 && cuts[0] == 0 && cuts[|cuts| - 1] <= |body|
    requires forall i :: 0 <= i < |cuts| - 1 ==> cuts[i] < cuts[i + 1]
    ensures Joined(cuts, body) == body[..cuts[|cuts| - 1]]
    ensures Tiles(cuts, |body|) ==> Joined(cuts, body) == body
    decreases |cuts|
  {
    hide ServeBody, Between;
    var n := |cuts|;
    if n > 1 {
      assert cuts[n - 2] < cuts[n - 2 + 1];
      var shorter := cuts[..n - 1];
      RangesReassemble(shorter, body);
      ServesBetween(cuts[n - 2], cuts[n - 1], body);
      assert body[..cuts[n - 1]] == body[..cuts[n - 2]] + body[cuts[n - 2]..cuts[n - 1]];
    }
    assert body[..|body|] == body;
  }
}
