/** The pkt-line framing of the Git protocol ("pkt-line Format" section of
    gitprotocol-common(5)) as git/pktline.go reads it. A byte is modelled as a `char`. */
module PktLine {
  import opened Numbers
  import opened Text

  /** What the scanner finds at the front of the bytes that remain: a line and the number of
      bytes it took, the end of the input, or bytes that are not a packet. */
  datatype Reading = Line(text: string, size: nat) | End | Fault(size: nat)

  function TrimNewline(s: string): string {
    if s != "" && s[|s| - 1] == '\n' then s[..|s| - 1] else s
  }

  function ReadPacket(rest: string): (r: Reading)
    ensures r.Line? ==> 4 <= r.size <= |rest|
    ensures r.Fault? ==> 4 <= r.size <= |rest|
  {
    if |rest| < 4 then End
    else
      match ParseInt(rest[..4], 16, INT32)
      case None => Fault(4)
      case Some(n) =>
        if n == 0 || n == 1 || n == 2 then Line("", 4)
        else if n < 4 then Fault(4)
        else if |rest| < n then Fault(|rest|)
        else Line(TrimNewline(rest[4..n]), n)
  }

  /** All lines up to the end of the input or the first fault, and which of the two it was. */
  datatype Scanned = Scanned(lines: seq<string>, malformed: bool)

  function ScanAll(rest: string): Scanned
    decreases |rest|
  {
    match ReadPacket(rest)
    case End => Scanned([], false)
    case Fault(_) => Scanned([], true)
    case Line(text, n) => var tail := ScanAll(rest[n..]); Scanned([text] + tail.lines, tail.malformed)
  }

  class Scanner {
    const body: string
    var pos: nat
    var line: string
    var err: bool
    var done: bool

    ghost predicate Valid()
      reads this
    {
      pos <= |body|
    }

    /** The bytes still to be read. */
    ghost function Rest(): string
      requires Valid()
      reads this
    {
      body[pos..]
    }

    constructor (body: string)
      ensures Valid() && this.body == body && Rest() == body && !err && !done
    {
      this.body := body;
      pos, line, err, done := 0, "", false, false;
      new;
      assert body[0..] == body;
    }

    /** Reads the next line. The end of the input is remembered in `done`, a fault in `err`. */
    method Scan() returns (ok: bool)
      requires Valid()
      modifies this
      ensures Valid()
      ensures old(done) ==> !ok && Rest() == old(Rest()) && line == old(line) && err == old(err) && done
      ensures !old(done) ==>
                match ReadPacket(old(Rest()))
                case Line(text, n) => ok && line == text && Rest() == old(Rest())[n..] && err == old(err) && !done
                case End => !ok && line == old(line) && Rest() == "" && err == old(err) && done
                case Fault(n) => !ok && line == old(line) && Rest() == old(Rest())[n..] && err && !done
    {
      if done {
        return false;
      }
      if |body| - pos < 4 {
        pos := |body|;
        done := true;
        return false;
      }
      assert Rest()[..4] == body[pos..pos + 4];
      var lenBuf := body[pos..pos + 4];
      pos := pos + 4;
      var parsed := ParseInt(lenBuf, 16, INT32);
      if parsed.None? {
        err := true;
        return false;
      }
      var n := parsed.value;
      if n == 0 || n == 1 || n == 2 {
        line := "";
        return true;
      }
      if n < 4 {
        err := true;
        return false;
      }
      if |body| - pos < n - 4 {
        pos := |body|;
        err := true;
        return false;
      }
      assert old(Rest())[4..n] == body[pos..pos + (n - 4)];
      var data := body[pos..pos + (n - 4)];
      pos := pos + (n - 4);
      line := TrimNewline(data);
      return true;
    }
  }

  // ----- The encoder that scanning undoes -----

  datatype Packet = Flush | Delim | ResponseEnd | Data(payload: string)
  {
    /** The length field has four hexadecimal digits and counts itself. */
    predicate Fits() {
      Data? ==> |payload| + 4 <= 0xFFFF
    }

    /** The payload less one newline at its end; the others are empty lines. */
    function Line(): string {
      if !Data? then ""
      else if payload != "" && payload[|payload| - 1] == '\n' then payload[..|payload| - 1]
      else payload
    }
  }

  function HexDigit(d: nat): (c: char)
    requires d < 16
    ensures DigitValue(c) == Some(d) && c != '+' && c != '-'
  {
    if d < 10 then '0' + d as char else 'a' + (d - 10) as char
  }

  function Hex4(n: nat): (s: string)
    requires n <= 0xFFFF
    ensures |s| == 4
  {
    var a := n / 16;
    var b := a / 16;
    [HexDigit(b / 16), HexDigit(b % 16), HexDigit(a % 16), HexDigit(n % 16)]
  }

  function Encode(p: Packet): string
    requires p.Fits()
  {
    match p
    case Flush => "0000"
    case Delim => "0001"
    case ResponseEnd => "0002"
    case Data(payload) => Hex4(|payload| + 4) + payload
  }

  function EncodeAll(ps: seq<Packet>): string
    requires forall p | p in ps :: p.Fits()
  {
    if ps == [] then "" else Encode(ps[0]) + EncodeAll(ps[1..])
  }

  function LinesOf(ps: seq<Packet>): (r: seq<string>)
    ensures |r| == |ps| && forall i :: 0 <= i < |ps| ==> r[i] == ps[i].Line()
  {
    if ps == [] then [] else [ps[0].Line()] + LinesOf(ps[1..])
  }

  lemma FourDigits(s: string, a: nat, b: nat, c: nat, d: nat)
    requires |s| == 4 && a < 16 && b < 16 && c < 16 && d < 16
    requires DigitValue(s[0]) == Some(a) && DigitValue(s[1]) == Some(b)
    requires DigitValue(s[2]) == Some(c) && DigitValue(s[3]) == Some(d)
    ensures Magnitude(s, 16) == Some(4096 * a + 256 * b + 16 * c + d)
  {
    assert s[..3][..2] == s[..2] && s[..2][..1] == s[..1] && s[..1][..0] == "";
    assert Magnitude("", 16) == Some(0);
    assert Magnitude(s[..1], 16) == Some(a);
    assert Magnitude(s[..2], 16) == Some(16 * a + b);
    assert Magnitude(s[..3], 16) == Some(16 * (16 * a + b) + c);
  }

  lemma Hex4RoundTrip(n: nat)
    requires n <= 0xFFFF
    ensures ParseInt(Hex4(n), 16, INT32) == Some(n)
  {
    var a := n / 16;
    var b := a / 16;
    assert b / 16 < 16;
    FourDigits(Hex4(n), b / 16, b % 16, a % 16, n % 16);
  }

  /** Reading a cut of an encoded payload: what the length field says decides. */
  lemma ReadData(payload: string, s: string)
    requires |payload| + 4 <= 0xFFFF && |s| >= 4
    requires if |s| <= |payload| + 4 then s <= Encode(Data(payload)) else Encode(Data(payload)) <= s
    ensures ReadPacket(s) == if |s| < |payload| + 4 then Fault(|s|) else Line(TrimNewline(payload), |payload| + 4)
  {
    hide ParseInt, TrimNewline, Hex4;
    var e := Encode(Data(payload));
    Hex4RoundTrip(|payload| + 4);
    assert e[..4] == Hex4(|payload| + 4) && e[4..] == payload;
    if |s| < |e| {
      assert s == e[..|s|];
      assert s[..4] == e[..|s|][..4] == e[..4];
    } else {
      assert s[..|e|] == e;
      assert s[..4] == s[..|e|][..4] && s[4..|e|] == s[..|e|][4..];
    }
  }

  /** The packets without a payload. */
  lemma ReadSpecial(s: string, d: nat)
    requires |s| >= 4 && d <= 2 && s[..4] == ["0000", "0001", "0002"][d]
    ensures ReadPacket(s) == Line("", 4)
  {
    FourDigits(s[..4], 0, 0, 0, d);
  }

  /** Reading any cut of a stream that begins with an encoded packet: fewer than four bytes are
      the end, a shorter packet is a fault, and otherwise the packet's own line comes back. */
  lemma ReadEncoded(p: Packet, tail: string, k: nat)
    requires p.Fits() && k <= |Encode(p) + tail|
    ensures ReadPacket((Encode(p) + tail)[..k]) ==
            if k < 4 then End
            else if k < |Encode(p)| then Fault(k)
            else Line(p.Line(), |Encode(p)|)
  {
    if k >= 4 {
      hide ReadPacket, TrimNewline;
      var s := (Encode(p) + tail)[..k];
      assert s[..4] == Encode(p)[..4];
      match p
      case Flush => ReadSpecial(s, 0);
      case Delim => ReadSpecial(s, 1);
      case ResponseEnd => ReadSpecial(s, 2);
      case Data(payload) => ReadData(payload, s);
    } else {
      ShortIsEnd((Encode(p) + tail)[..k]);
    }
  }

  lemma ShortIsEnd(s: string)
    requires |s| < 4
    ensures ReadPacket(s) == End
  {
  }

  lemma EncodedSize(p: Packet)
    requires p.Fits()
    ensures |Encode(p)| >= 4
  {
  }

  /** The number of packets that lie wholly within the first `k` bytes of the encoding. */
  function Whole(ps: seq<Packet>, k: nat): (n: nat)
    requires forall p | p in ps :: p.Fits()
    ensures n <= |ps|
  {
    if ps == [] || k < |Encode(ps[0])| then 0 else 1 + Whole(ps[1..], k - |Encode(ps[0])|)
  }

  /** The bytes that follow the last whole packet. */
  function Excess(ps: seq<Packet>, k: nat): nat
    requires forall p | p in ps :: p.Fits()
  {
    if ps == [] || k < |Encode(ps[0])| then k else Excess(ps[1..], k - |Encode(ps[0])|)
  }

  lemma ScanLine(rest: string)
    requires ReadPacket(rest).Line?
    ensures var n := ReadPacket(rest).size;
            ScanAll(rest) == Scanned([ReadPacket(rest).text] + ScanAll(rest[n..]).lines, ScanAll(rest[n..]).malformed)
  {
  }

  lemma ScanEncoded(p: Packet, tail: string, k: nat)
    requires p.Fits() && k <= |Encode(p) + tail|
    ensures |Encode(p)| >= 4
    ensures k < |Encode(p)| ==> ScanAll((Encode(p) + tail)[..k]) == Scanned([], k >= 4)
    ensures k >= |Encode(p)| ==>
              var rest := ScanAll(tail[..k - |Encode(p)|]);
              ScanAll((Encode(p) + tail)[..k]) == Scanned([p.Line()] + rest.lines, rest.malformed)
  {
    hide ReadPacket, ScanAll, Encode;
    EncodedSize(p);
    ReadEncoded(p, tail, k);
    var s := (Encode(p) + tail)[..k];
    if k >= |Encode(p)| {
      ScanLine(s);
      CutBehind(Encode(p), tail, k);
    } else {
      ScanStops(s);
    }
  }

  lemma ScanStops(rest: string)
    requires !ReadPacket(rest).Line?
    ensures ScanAll(rest) == Scanned([], ReadPacket(rest).Fault?)
  {
  }

  lemma CutBehind(e: string, tail: string, k: nat)
    requires |e| <= k <= |e + tail|
    ensures (e + tail)[..k][|e|..] == tail[..k - |e|]
  {
  }

  lemma WholeStep(ps: seq<Packet>, k: nat)
    requires (forall p | p in ps :: p.Fits()) && ps != [] && k >= |Encode(ps[0])|
    ensures var m := k - |Encode(ps[0])|;
            LinesOf(ps)[..Whole(ps, k)] == [ps[0].Line()] + LinesOf(ps[1..])[..Whole(ps[1..], m)] &&
            Excess(ps, k) == Excess(ps[1..], m)
  {
  }

  /** Every truncation of an encoded stream scans to the lines of exactly the whole packets. It
      is reported as malformed only when the cut falls inside a payload: a cut inside a length
      field is taken for the end of the input. */
  lemma {:induction false} ScanTruncated(ps: seq<Packet>, k: nat)
    requires (forall p | p in ps :: p.Fits()) && k <= |EncodeAll(ps)|
    ensures ScanAll(EncodeAll(ps)[..k]) == Scanned(LinesOf(ps)[..Whole(ps, k)], Excess(ps, k) >= 4)
  {
    hide ReadPacket, ScanAll, Encode;
    if ps == [] {
      NothingScans();
    } else {
      var first := Encode(ps[0]);
      ScanEncoded(ps[0], EncodeAll(ps[1..]), k);
      if k >= |first| {
        ScanTruncated(ps[1..], k - |first|);
        WholeStep(ps, k);
      }
    }
  }

  lemma NothingScans()
    ensures ScanAll("") == Scanned([], false)
  {
  }

  lemma {:induction false} AllWhole(ps: seq<Packet>)
    requires forall p | p in ps :: p.Fits()
    ensures Whole(ps, |EncodeAll(ps)|) == |ps| && Excess(ps, |EncodeAll(ps)|) == 0
  {
    if ps != [] { AllWhole(ps[1..]); }
  }

  /** Scanning undoes encoding: the lines come back in order and nothing is malformed. */
  lemma ScanUndoesEncode(ps: seq<Packet>)
    requires forall p | p in ps :: p.Fits()
    ensures ScanAll(EncodeAll(ps)) == Scanned(LinesOf(ps), false)
  {
    AllWhole(ps);
    ScanTruncated(ps, |EncodeAll(ps)|);
    assert EncodeAll(ps)[..|EncodeAll(ps)|] == EncodeAll(ps);
    assert LinesOf(ps)[..|ps|] == LinesOf(ps);
  }

  // ----- Hexadecimal digits in either case -----

  lemma {:induction false} MagnitudeIgnoresCase(a: string, b: string)
    requires SameUpToCase(a, b)
    ensures Magnitude(a, 16) == Magnitude(b, 16)
  {
    if a != "" {
      var n := |a| - 1;
      assert SameLetter(a[n], b[n]);
      assert forall i :: 0 <= i < n ==> SameLetter(a[..n][i], b[..n][i]);
      MagnitudeIgnoresCase(a[..n], b[..n]);
    }
  }

  /** Two streams whose first length fields differ only in the case of their letters begin with the
      same packet; so "000A" and "000a" are both ten. */
  lemma CaseOfLengthIgnored(field: string, other: string, rest: string)
    requires |field| == 4 && SameUpToCase(field, other)
    ensures ReadPacket(field + rest) == ReadPacket(other + rest)
  {
    hide Magnitude;
    var a, b := field + rest, other + rest;
    assert a[..4] == field && b[..4] == other;
    assert SameLetter(field[0], other[0]);
    assert forall i :: 0 <= i < 3 ==> SameLetter(field[1..][i], other[1..][i]);
    MagnitudeIgnoresCase(field, other);
    MagnitudeIgnoresCase(field[1..], other[1..]);
    var r := ReadPacket(a);
    if r.Line? && |a| >= 4 { assert a[4..] == rest == b[4..]; }
    forall n | 4 <= n <= |a| ensures a[4..n] == b[4..n] { assert a[4..n] == rest[..n - 4] == b[4..n]; }
  }

  // ----- Exactly when the grammar is followed -----

  /** The largest packet, with its length field. */
  const LIMIT: nat := 65520

  /** The grammar's reading: four hexadecimal digits without a sign, for a length within the limit. */
  function GrammarReading(rest: string): (r: Reading)
    ensures r.Line? ==> 4 <= r.size <= |rest|
  {
    if |rest| < 4 then End
    else
      match Magnitude(rest[..4], 16)
      case None => Fault(4)
      case Some(n) =>
        if n <= 2 then Line("", 4)
        else if n == 3 || n > LIMIT then Fault(4)
        else if |rest| < n then Fault(|rest|)
        else Line(TrimNewline(rest[4..n]), n)
  }

  /** The length field starts with a sign and is taken all the same: minus zero, or plus and a
      length other than three. Plus a length of more than four with nothing behind it is a
      fault at the same place in either reading. */
  predicate SignTaken(rest: string) {
    |rest| >= 4 && (rest[0] == '-' || rest[0] == '+') &&
    match Magnitude(rest[1..4], 16)
    case None => false
    case Some(n) => if rest[0] == '-' then n == 0 else n < 3 || n == 4 || (n > 4 && |rest| > 4)
  }

  /** The length is above the limit, and is taken all the same. */
  predicate TooLong(rest: string) {
    |rest| > 4 && Magnitude(rest[..4], 16).Some? && Magnitude(rest[..4], 16).value > LIMIT
  }

  predicate Departs(rest: string) {
    SignTaken(rest) || TooLong(rest)
  }

  lemma {:induction false} MagnitudeBound(s: string)
    requires Magnitude(s, 16).Some? && |s| <= 4
    ensures |s| == 4 ==> Magnitude(s, 16).value < 0x1_0000
    ensures |s| == 3 ==> Magnitude(s, 16).value < 0x1000
    ensures |s| == 2 ==> Magnitude(s, 16).value < 0x100
    ensures |s| == 1 ==> Magnitude(s, 16).value < 0x10
  {
    if s != "" { MagnitudeBound(s[..|s| - 1]); }
    if |s| == 1 { assert s[..0] == ""; }
  }

  /** A sign is not a digit. */
  lemma {:induction false} SignIsNoDigit(s: string)
    requires s != "" && (s[0] == '-' || s[0] == '+')
    ensures Magnitude(s, 16).None?
  {
    if |s| > 1 { SignIsNoDigit(s[..|s| - 1]); }
  }

  /** The scanner's reading of a packet is the grammar's exactly if no sign and no length above the
      limit is taken. */
  lemma ReadsByTheGrammarIff(rest: string)
    ensures ReadPacket(rest) == GrammarReading(rest) <==> !Departs(rest)
    ensures Departs(rest) ==> GrammarReading(rest) == Fault(4) && !ReadPacket(rest).End?
  {
    if |rest| >= 4 {
      hide Magnitude;
      var field := rest[..4];
      if rest[0] == '-' || rest[0] == '+' {
        SignIsNoDigit(field);
        assert field[1..] == rest[1..4];
        if Magnitude(rest[1..4], 16).Some? { MagnitudeBound(rest[1..4]); }
      } else if Magnitude(field, 16).Some? {
        MagnitudeBound(field);
      }
    }
  }

  function GrammarScan(rest: string): Scanned
    decreases |rest|
  {
    match GrammarReading(rest)
    case End => Scanned([], false)
    case Fault(_) => Scanned([], true)
    case Line(text, n) => var tail := GrammarScan(rest[n..]); Scanned([text] + tail.lines, tail.malformed)
  }

  /** Some line comes from a packet whose length field has a sign or is above the limit. */
  predicate SomeLineDeparts(rest: string)
    decreases |rest|
  {
    match ReadPacket(rest)
    case Line(_, n) => Departs(rest) || SomeLineDeparts(rest[n..])
    case _ => false
  }

  /** A whole stream is scanned as the grammar has it exactly if no line comes from such a packet. */
  lemma {:induction false} ScansByTheGrammarIff(rest: string)
    ensures ScanAll(rest) == GrammarScan(rest) <==> !SomeLineDeparts(rest)
    decreases |rest|
  {
    hide ReadPacket, GrammarReading, Departs;
    ReadsByTheGrammarIff(rest);
    if ReadPacket(rest).Line? {
      var n := ReadPacket(rest).size;
      ScansByTheGrammarIff(rest[n..]);
      if !Departs(rest) {
        var a, b := ScanAll(rest), GrammarScan(rest);
        assert a.lines[1..] == ScanAll(rest[n..]).lines && b.lines[1..] == GrammarScan(rest[n..]).lines;
      }
    }
  }

  /** Two such packets: minus zero is a flush, and a plus sign does not matter. */
  lemma SignedLengths()
    ensures ReadPacket("-000") == Line("", 4)
    ensures ReadPacket("+005x") == Line("x", 5)
  {
    assert "-000"[..4] == "-000" && "-000"[1..] == "000";
    ThreeDigits("000", 0);
    assert "+005x"[..4] == "+005" && "+005"[1..] == "005";
    ThreeDigits("005", 5);
    assert "+005x"[4..5] == "x";
  }

  lemma ThreeDigits(s: string, d: nat)
    requires |s| == 3 && s[0] == '0' && s[1] == '0' && d < 16 && DigitValue(s[2]) == Some(d)
    ensures Magnitude(s, 16) == Some(d)
  {
    assert s[..2][..1] == s[..1] && s[..1][..0] == "";
    assert Magnitude("", 16) == Some(0);
    assert Magnitude(s[..1], 16) == Some(0);
    assert Magnitude(s[..2], 16) == Some(0);
  }

  // ----- Where each line ends, in bytes -----

  function PositionAfter(rest: string, count: nat): (q: nat)
    requires count <= |ScanAll(rest).lines|
    ensures q <= |rest|
    decreases |rest|
  {
    if count == 0 then 0
    else var n := ReadPacket(rest).size; n + PositionAfter(rest[n..], count - 1)
  }

  lemma ReadAgrees(a: string, b: string)
    requires ReadPacket(a).Line? && ReadPacket(a).size <= |b| && a[..ReadPacket(a).size] == b[..ReadPacket(a).size]
    ensures ReadPacket(b) == ReadPacket(a)
  {
    var n := ReadPacket(a).size;
    assert a[..n][..4] == a[..4] && b[..n][..4] == b[..4];
    assert a[..n][4..n] == a[4..n] && b[..n][4..n] == b[4..n];
  }

  /** Bytes after a line do not change it or any line before it. */
  lemma {:induction false} LinesAgree(a: string, b: string, count: nat)
    requires count <= |ScanAll(a).lines|
    requires PositionAfter(a, count) <= |b| && a[..PositionAfter(a, count)] == b[..PositionAfter(a, count)]
    ensures count <= |ScanAll(b).lines| && ScanAll(b).lines[..count] == ScanAll(a).lines[..count]
    decreases count
  {
    hide ReadPacket;
    if count > 0 {
      var n := ReadPacket(a).size;
      var q := PositionAfter(a, count);
      assert a[..q][..n] == a[..n] && b[..q][..n] == b[..n];
      ReadAgrees(a, b);
      ScanLine(a);
      ScanLine(b);
      assert a[..q][n..] == a[n..][..q - n] && b[..q][n..] == b[n..][..q - n];
      LinesAgree(a[n..], b[n..], count - 1);
      var la, lb := ScanAll(a).lines, ScanAll(b).lines;
      assert la[..count] == [la[0]] + ScanAll(a[n..]).lines[..count - 1];
      assert lb[..count] == [lb[0]] + ScanAll(b[n..]).lines[..count - 1];
    }
  }
}
