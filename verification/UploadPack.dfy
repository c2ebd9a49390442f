/** Classification of git-upload-pack request bodies (git/pktline.go): is the request a full
    clone whose pack may be served from the cache? The requests themselves are described in the
    "Packfile Negotiation" section of gitprotocol-pack(5) and in the fetch command section of
    gitprotocol-v2(5). */
module UploadPack {
  import opened PktLine
  import opened Text

  datatype Request = Request(
    wants: seq<string>, isFreshClone: bool, isShallow: bool, isV2: bool, v2Command: string, hasFilter: bool)

  // ----- What single lines say -----

  predicate IsWant(line: string) { "want " <= line }
  predicate IsHave(line: string) { "have " <= line }
  predicate SaysShallow(line: string) { "shallow " <= line }
  predicate SaysDeepen(line: string) { "deepen" <= line }
  predicate IsTruncating(line: string) { SaysShallow(line) || SaysDeepen(line) }
  predicate IsFilter(line: string) { "filter " <= line }
  predicate IsStop(line: string) { line == "done" || line == "" }

  function WordLength(s: string): (n: nat)
    ensures n <= |s|
  {
    if s == "" || IsSpace(s[0]) then 0 else 1 + WordLength(s[1..])
  }

  /** strings.Fields: the maximal runs of characters that are not white space. */
  function Fields(s: string): seq<string>
    decreases |s|
  {
    if s == "" then []
    else if IsSpace(s[0]) then Fields(s[1..])
    else [s[..WordLength(s)]] + Fields(s[WordLength(s)..])
  }

  function WantOf(line: string): seq<string> {
    if IsWant(line) && |Fields(line)| >= 2 then [Fields(line)[1]] else []
  }

  function WantsIn(lines: seq<string>): seq<string> {
    if lines == [] then [] else WantsIn(lines[..|lines| - 1]) + WantOf(lines[|lines| - 1])
  }

  /** The last command line wins. */
  function CommandIn(lines: seq<string>): string {
    if lines == [] then ""
    else
      var last := lines[|lines| - 1];
      if "command=" <= last then last[8..] else CommandIn(lines[..|lines| - 1])
  }

  predicate AnyTruncating(lines: seq<string>) { exists k :: 0 <= k < |lines| && IsTruncating(lines[k]) }
  predicate AnyFilter(lines: seq<string>) { exists k :: 0 <= k < |lines| && IsFilter(lines[k]) }

  // ----- The request that a list of scanned lines stands for -----

  /** The first empty line at or after `i`: it ends the first section. */
  function BlankFrom(lines: seq<string>, i: nat): (b: nat)
    requires i <= |lines|
    ensures i <= b <= |lines|
    ensures forall k :: i <= k < b ==> lines[k] != ""
    ensures b < |lines| ==> lines[b] == ""
    decreases |lines| - i
  {
    if i == |lines| || lines[i] == "" then i else BlankFrom(lines, i + 1)
  }

  predicate IsDeciding(line: string) { IsStop(line) || IsHave(line) }

  /** The first line at or after `i` that settles the question. */
  function DecidingFrom(lines: seq<string>, i: nat): (j: nat)
    requires i <= |lines|
    ensures i <= j <= |lines|
    ensures forall k :: i <= k < j ==> !IsDeciding(lines[k])
    ensures j < |lines| ==> IsDeciding(lines[j])
    decreases |lines| - i
  {
    if i == |lines| || IsDeciding(lines[i]) then i else DecidingFrom(lines, i + 1)
  }

  /** Two sections: lines[..head] and lines[head + 1..stop]. Undecided when stop == |lines|. */
  datatype Sections = Sections(head: nat, stop: nat)

  function SectionsOf(lines: seq<string>): (s: Sections)
    ensures s.head <= s.stop <= |lines|
    ensures s.head < |lines| ==> s.head < s.stop
  {
    var head := BlankFrom(lines, 0);
    if head == |lines| then Sections(head, head) else Sections(head, DecidingFrom(lines, head + 1))
  }

  predicate Decided(lines: seq<string>) {
    SectionsOf(lines).stop < |lines|
  }

  function Arguments(lines: seq<string>): seq<string> {
    var s := SectionsOf(lines);
    if s.head == |lines| then [] else lines[s.head + 1..s.stop]
  }

  function RequestV1(lines: seq<string>): Request {
    var s := SectionsOf(lines);
    var shallow := AnyTruncating(Arguments(lines));
    var full := Decided(lines) && !IsHave(lines[s.stop]) && !shallow;
    Request(WantsIn(lines[..s.head]), full, shallow, false, "", false)
  }

  function RequestV2(lines: seq<string>): Request {
    var s := SectionsOf(lines);
    var args := Arguments(lines);
    var command := CommandIn(lines[..s.head]);
    var full := Decided(lines) && !IsHave(lines[s.stop]) && command == "fetch" && !AnyTruncating(args) &&
        !AnyFilter(args);
    Request(WantsIn(args), full, AnyTruncating(args), true, command, AnyFilter(args))
  }

  // ----- The parsers -----

  /** The lines already read, and what the rest of the body will still scan to. */
  ghost predicate Progress(all: Scanned, read: seq<string>, rest: string) {
    all.lines == read + ScanAll(rest).lines && all.malformed == ScanAll(rest).malformed
  }

  predicate NoBlank(first: seq<string>) { forall k :: 0 <= k < |first| ==> first[k] != "" }
  predicate NoDeciding(args: seq<string>) { forall k :: 0 <= k < |args| ==> !IsDeciding(args[k]) }

  /** The lines read so far, by the section they fell into. */
  ghost function ReadSoFar(phase: int, first: seq<string>, args: seq<string>): seq<string> {
    if phase == 1 then first else first + [""] + args
  }

  lemma ReadSoFarGrows(first: seq<string>, args: seq<string>, line: string)
    ensures ReadSoFar(1, first, []) + [line] == ReadSoFar(1, first + [line], [])
    ensures ReadSoFar(1, first, []) + [""] == ReadSoFar(2, first, [])
    ensures ReadSoFar(2, first, args) + [line] == ReadSoFar(2, first, args + [line])
  {
    assert first + [""] == first + [""] + [];
  }

  lemma StartOfBody(body: string)
    ensures Progress(ScanAll(body), ReadSoFar(1, [], []), body)
  {
    assert [] + ScanAll(body).lines == ScanAll(body).lines;
  }

  lemma ReadOne(all: Scanned, read: seq<string>, rest: string)
    requires Progress(all, read, rest)
    ensures match ReadPacket(rest)
            case Line(text, n) => Progress(all, read + [text], rest[n..]) && read + [text] <= all.lines
            case End => all.lines == read && !all.malformed
            case Fault(_) => all.lines == read && all.malformed
  {
    match ReadPacket(rest)
    case Line(text, n) =>
      assert read + ([text] + ScanAll(rest[n..]).lines) == (read + [text]) + ScanAll(rest[n..]).lines;
    case End => assert read + [] == read;
    case Fault(_) => assert read + [] == read;
  }

  /** The sections are the only split of the lines with these properties. */
  lemma SectionsUnique(lines: seq<string>, first: seq<string>, args: seq<string>)
    requires first + [""] + args <= lines && NoBlank(first) && NoDeciding(args)
    requires |first| + 1 + |args| < |lines| ==> IsDeciding(lines[|first| + 1 + |args|])
    ensures SectionsOf(lines) == Sections(|first|, |first| + 1 + |args|)
    ensures lines[..|first|] == first && Arguments(lines) == args
  {
    hide IsDeciding;
    var head, stop := |first|, |first| + 1 + |args|;
    var read := first + [""] + args;
    assert lines[..stop] == read;
    forall k | 0 <= k < head ensures lines[k] == first[k] { assert lines[k] == read[k]; }
    assert lines[head] == read[head] == "";
    forall k | head < k < stop ensures lines[k] == args[k - head - 1] { assert lines[k] == read[k]; }
    assert BlankFrom(lines, 0) == head;
    var j := DecidingFrom(lines, head + 1);
    assert j <= stop by { if stop < |lines| { assert IsDeciding(lines[stop]); } }
    assert j >= stop by { if head < j < |lines| { assert IsDeciding(lines[j]); } }
  }

  /** No line is of two kinds. */
  lemma KindsExclusive(line: string)
    ensures IsDeciding(line) ==> !IsWant(line) && WantOf(line) == [] && !IsTruncating(line) && !IsFilter(line)
    ensures IsHave(line) ==> !IsStop(line)
  {
    if line != "" {
      assert IsWant(line) ==> line[0] == 'w';
      assert IsHave(line) ==> line[0] == 'h';
      assert IsFilter(line) ==> line[0] == 'f';
      assert "shallow " <= line ==> line[0] == 's';
      assert "deepen" <= line ==> line[0] == 'd' && line[1] == 'e';
    }
  }

  lemma NoBlankYet(lines: seq<string>)
    requires forall k :: 0 <= k < |lines| ==> lines[k] != ""
    ensures SectionsOf(lines) == Sections(|lines|, |lines|) && Arguments(lines) == []
  {
  }

  lemma AnyGrows(lines: seq<string>, line: string)
    ensures AnyTruncating(lines + [line]) <==> AnyTruncating(lines) || IsTruncating(line)
    ensures AnyFilter(lines + [line]) <==> AnyFilter(lines) || IsFilter(line)
  {
    var more := lines + [line];
    assert more[|lines|] == line;
    if k :| 0 <= k < |lines| && IsTruncating(lines[k]) { assert IsTruncating(more[k]); }
    if k :| 0 <= k < |lines| && IsFilter(lines[k]) { assert IsFilter(more[k]); }
  }

  lemma WantsGrow(lines: seq<string>, line: string)
    ensures WantsIn(lines + [line]) == WantsIn(lines) + WantOf(line)
    ensures CommandIn(lines + [line]) == if "command=" <= line then line[8..] else CommandIn(lines)
  {
    assert (lines + [line])[..|lines|] == lines;
  }

  /** Appends the object that a want line names. */
  method AddWant(req: Request, line: string) returns (r: Request)
    ensures r == req.(wants := req.wants + WantOf(line))
  {
    r := req;
    if IsWant(line) {
      var fields := Fields(line);
      if |fields| >= 2 {
        r := req.(wants := req.wants + [fields[1]]);
      }
    }
    assert req.wants + [] == req.wants;
  }

  // What version 1 of the parser has gathered from the first section and the arguments.
  ghost predicate InV1(first: seq<string>, args: seq<string>, req: Request) {
    NoBlank(first) && NoDeciding(args) && req == Request(WantsIn(first), false, AnyTruncating(args), false, "", false)
  }

  lemma StartOfV1()
    ensures InV1([], [], Request([], false, false, false, "", false))
  {
  }

  lemma HeadLineV1(first: seq<string>, req: Request, line: string)
    requires InV1(first, [], req) && line != ""
    ensures InV1(first + [line], [], req.(wants := req.wants + WantOf(line)))
  {
    WantsGrow(first, line);
  }

  lemma ArgsLineV1(first: seq<string>, args: seq<string>, req: Request, line: string)
    requires InV1(first, args, req) && !IsDeciding(line)
    ensures InV1(first, args + [line], req.(isShallow := req.isShallow || IsTruncating(line)))
  {
    hide WantOf, IsTruncating, IsFilter, IsDeciding;
    WantsGrow(args, line);
    AnyGrows(args, line);
  }

  lemma ArgsEndV1(first: seq<string>, args: seq<string>, req: Request, line: string, lines: seq<string>)
    requires InV1(first, args, req) && IsDeciding(line) && ReadSoFar(2, first, args) + [line] <= lines
    ensures Decided(lines)
    ensures RequestV1(lines) == req.(isFreshClone := IsStop(line) && !req.isShallow)
  {
    hide WantsIn, CommandIn, AnyTruncating, AnyFilter, IsHave, IsStop;
    var read := first + [""] + args;
    assert read + [line] <= lines && lines[..|read| + 1] == read + [line];
    assert lines[|read|] == line && lines[..|read|] == read;
    SectionsUnique(lines, first, args);
    KindsExclusive(line);
  }

  lemma ExhaustedV1(first: seq<string>, args: seq<string>, req: Request, phase: int)
    requires InV1(first, args, req) && (phase == 1 ==> args == [])
    ensures var lines := ReadSoFar(phase, first, args);
            req == RequestV1(lines) && !Decided(lines)
  {
    if phase == 1 {
      NoBlankYet(first);
      assert first[..|first|] == first;
    } else {
      SectionsUnique(first + [""] + args, first, args);
    }
  }

  method ParseV1(body: string) returns (req: Request, err: bool)
    ensures req == RequestV1(ScanAll(body).lines)
    ensures err <==> !Decided(ScanAll(body).lines) && ScanAll(body).malformed
  {
    hide ReadPacket, ScanAll, RequestV1, Decided, InV1, WantOf, Progress, ReadSoFar, Scanner.Rest, SaysShallow,
        SaysDeepen, IsFilter, IsHave;
    ghost var all := ScanAll(body);
    ghost var first: seq<string>, args: seq<string> := [], [];
    StartOfV1();
    req := Request([], false, false, false, "", false);
    var s := new Scanner(body);
    StartOfBody(body);
    var phase := 1;
    while true
      invariant fresh(s) && s.Valid() && !s.err && !s.done
      invariant phase == 1 ==> args == []
      invariant Progress(all, ReadSoFar(phase, first, args), s.Rest())
      invariant phase == 1 || phase == 2
      invariant InV1(first, args, req) && !req.isFreshClone
      decreases |s.Rest()|
    {
      ReadOne(all, ReadSoFar(phase, first, args), s.Rest());
      var ok := s.Scan();
      if !ok {
        break;
      }
      var line := s.line;
      ReadSoFarGrows(first, args, line);
      if phase == 1 {
        if line == "" {
          phase := 2;
          continue;
        }
        HeadLineV1(first, req, line);
        first := first + [line];
        req := AddWant(req, line);
      } else {
        KindsExclusive(line);
        if IsDeciding(line) {
          ArgsEndV1(first, args, req, line, all.lines);
        } else {
          ArgsLineV1(first, args, req, line);
        }
        args := args + [line];
        if IsHave(line) {
          return req.(isFreshClone := false), false;
        }
        if SaysShallow(line) {
          req := req.(isShallow := true);
        }
        if SaysDeepen(line) {
          req := req.(isShallow := true);
        }
        if IsStop(line) {
          return req.(isFreshClone := !req.isShallow), false;
        }
      }
    }
    ExhaustedV1(first, args, req, phase);
    err := s.err;
  }

  // What version 2 of the parser has gathered from the first section and the arguments.
  ghost predicate InV2(first: seq<string>, args: seq<string>, req: Request) {
    NoBlank(first) && NoDeciding(args) &&
        req == Request(WantsIn(args), false, AnyTruncating(args), true, CommandIn(first), AnyFilter(args))
  }

  lemma StartOfV2()
    ensures InV2([], [], Request([], false, false, true, "", false))
  {
  }

  lemma HeadLineV2(first: seq<string>, req: Request, line: string)
    requires InV2(first, [], req) && line != ""
    ensures InV2(first + [line], [], req.(v2Command := if "command=" <= line then line[8..] else req.v2Command))
  {
    WantsGrow(first, line);
  }

  lemma ArgsLineV2(first: seq<string>, args: seq<string>, req: Request, line: string)
    requires InV2(first, args, req) && !IsDeciding(line)
    ensures InV2(first, args + [line],
                 req.(wants := req.wants + WantOf(line), isShallow := req.isShallow || IsTruncating(line),
                      hasFilter := req.hasFilter || IsFilter(line)))
  {
    hide WantOf, IsTruncating, IsFilter, IsDeciding;
    WantsGrow(args, line);
    AnyGrows(args, line);
  }

  lemma ArgsEndV2(first: seq<string>, args: seq<string>, req: Request, line: string, lines: seq<string>)
    requires InV2(first, args, req) && IsDeciding(line) && ReadSoFar(2, first, args) + [line] <= lines
    ensures Decided(lines)
    ensures var full := IsStop(line) && req.v2Command == "fetch" && !req.isShallow && !req.hasFilter;
            RequestV2(lines) == req.(isFreshClone := full)
  {
    hide WantsIn, CommandIn, AnyTruncating, AnyFilter, IsHave, IsStop;
    var read := first + [""] + args;
    assert read + [line] <= lines && lines[..|read| + 1] == read + [line];
    assert lines[|read|] == line && lines[..|read|] == read;
    SectionsUnique(lines, first, args);
    KindsExclusive(line);
  }

  lemma ExhaustedV2(first: seq<string>, args: seq<string>, req: Request, phase: int)
    requires InV2(first, args, req) && (phase == 1 ==> args == [])
    ensures var lines := ReadSoFar(phase, first, args);
            req == RequestV2(lines) && !Decided(lines)
  {
    if phase == 1 {
      NoBlankYet(first);
      assert first[..|first|] == first;
    } else {
      SectionsUnique(first + [""] + args, first, args);
    }
  }

  method ParseV2(body: string) returns (req: Request, err: bool)
    ensures req == RequestV2(ScanAll(body).lines)
    ensures err <==> !Decided(ScanAll(body).lines) && ScanAll(body).malformed
  {
    hide ReadPacket, ScanAll, RequestV2, Decided, InV2, WantOf, Progress, ReadSoFar, Scanner.Rest, SaysShallow,
        SaysDeepen, IsFilter, IsHave;
    ghost var all := ScanAll(body);
    ghost var first: seq<string>, args: seq<string> := [], [];
    StartOfV2();
    req := Request([], false, false, true, "", false);
    var s := new Scanner(body);
    StartOfBody(body);
    var phase := 1;
    while true
      invariant fresh(s) && s.Valid() && !s.err && !s.done
      invariant phase == 1 ==> args == []
      invariant Progress(all, ReadSoFar(phase, first, args), s.Rest())
      invariant phase == 1 || phase == 2
      invariant InV2(first, args, req) && !req.isFreshClone
      decreases |s.Rest()|
    {
      ReadOne(all, ReadSoFar(phase, first, args), s.Rest());
      var ok := s.Scan();
      if !ok {
        break;
      }
      var line := s.line;
      ReadSoFarGrows(first, args, line);
      if phase == 1 {
        if line == "" {
          phase := 2;
          continue;
        }
        HeadLineV2(first, req, line);
        first := first + [line];
        if "command=" <= line {
          req := req.(v2Command := line[8..]);
        }
      } else {
        KindsExclusive(line);
        if IsDeciding(line) {
          ArgsEndV2(first, args, req, line, all.lines);
        } else {
          ArgsLineV2(first, args, req, line);
        }
        args := args + [line];
        req := AddWant(req, line);
        if IsHave(line) {
          return req.(isFreshClone := false), false;
        }
        if SaysShallow(line) {
          req := req.(isShallow := true);
        }
        if SaysDeepen(line) {
          req := req.(isShallow := true);
        }
        if IsFilter(line) {
          req := req.(hasFilter := true);
        }
        if IsStop(line) {
          if req.v2Command == "fetch" {
            req := req.(isFreshClone := !req.isShallow && !req.hasFilter);
          }
          return req, false;
        }
      }
    }
    ExhaustedV2(first, args, req, phase);
    err := s.err;
  }

  // ----- What the classification means -----

  /** A full clone: after the first blank line, a `done` or blank line is reached with nothing
      before it that announces objects the client has or cuts the history short. */
  ghost predicate FullCloneV1(lines: seq<string>) {
    exists i, j :: 0 <= i < j < |lines| && ReachesStop(lines, i, j) &&
                   forall k :: i < k < j ==> !("shallow " <= lines[k]) && !("deepen" <= lines[k])
  }

  ghost predicate FullCloneV2(lines: seq<string>) {
    exists i, j :: 0 <= i < j < |lines| && ReachesStop(lines, i, j) && LastCommand(lines[..i], "fetch") &&
                   forall k :: i < k < j ==>
                     !("shallow " <= lines[k]) && !("deepen" <= lines[k]) && !("filter " <= lines[k])
  }

  /** The last command line names this command. */
  ghost predicate LastCommand(lines: seq<string>, command: string) {
    exists c :: 0 <= c < |lines| && lines[c] == "command=" + command &&
                forall k :: c < k < |lines| ==> !("command=" <= lines[k])
  }

  lemma LastCommandIff(lines: seq<string>, command: string)
    requires command != ""
    ensures CommandIn(lines) == command <==> LastCommand(lines, command)
  {
    if LastCommand(lines, command) {
      var c :| 0 <= c < |lines| && lines[c] == "command=" + command &&
          forall k :: c < k < |lines| ==> !("command=" <= lines[k]);
      CommandFound(lines, c, command);
    }
    if CommandIn(lines) == command {
      var c := CommandLine(lines);
    }
  }

  lemma {:induction false} CommandFound(lines: seq<string>, c: nat, command: string)
    requires c < |lines| && lines[c] == "command=" + command
    requires forall k :: c < k < |lines| ==> !("command=" <= lines[k])
    ensures CommandIn(lines) == command
  {
    if c == |lines| - 1 {
      assert lines[c][8..] == command;
    } else {
      CommandFound(lines[..|lines| - 1], c, command);
    }
  }

  lemma {:induction false} CommandLine(lines: seq<string>) returns (c: nat)
    requires CommandIn(lines) != ""
    ensures c < |lines| && lines[c] == "command=" + CommandIn(lines)
    ensures forall k :: c < k < |lines| ==> !("command=" <= lines[k])
  {
    c := |lines| - 1;
    if !("command=" <= lines[c]) { c := CommandLine(lines[..|lines| - 1]); }
  }

  /** lines[i] is the first blank line and lines[j] the first stop after it, with no have between. */
  predicate ReachesStop(lines: seq<string>, i: int, j: int)
    requires 0 <= i < j < |lines|
  {
    && lines[i] == "" && (forall k :: 0 <= k < i ==> lines[k] != "")
    && (lines[j] == "done" || lines[j] == "")
    && forall k :: i < k < j ==> lines[k] != "done" && lines[k] != "" && !("have " <= lines[k])
  }

  lemma ReachesStopIsDecided(lines: seq<string>, i: int, j: int)
    requires 0 <= i < j < |lines| && ReachesStop(lines, i, j)
    ensures SectionsOf(lines) == Sections(i, j) && Arguments(lines) == lines[i + 1..j] && !IsHave(lines[j])
  {
    assert lines == lines[..i] + [""] + lines[i + 1..j] + lines[j..];
    SectionsUnique(lines, lines[..i], lines[i + 1..j]);
  }

  lemma ArgumentsSatisfy(lines: seq<string>, i: nat, j: nat)
    requires i < j <= |lines|
    ensures AnyTruncating(lines[i + 1..j]) <==> exists k :: i < k < j && IsTruncating(lines[k])
    ensures AnyFilter(lines[i + 1..j]) <==> exists k :: i < k < j && IsFilter(lines[k])
  {
    var args := lines[i + 1..j];
    forall k | i < k < j ensures args[k - i - 1] == lines[k] { }
    if k :| i < k < j && IsTruncating(lines[k]) { assert IsTruncating(args[k - i - 1]); }
    if k :| i < k < j && IsFilter(lines[k]) { assert IsFilter(args[k - i - 1]); }
  }

  lemma FreshV1IsFullClone(lines: seq<string>)
    ensures RequestV1(lines).isFreshClone <==> FullCloneV1(lines)
  {
    var s := SectionsOf(lines);
    if Decided(lines) {
      ArgumentsSatisfy(lines, s.head, s.stop);
      if !IsHave(lines[s.stop]) { assert ReachesStop(lines, s.head, s.stop); }
    }
    forall i, j | 0 <= i < j < |lines| && ReachesStop(lines, i, j)
      ensures s == Sections(i, j) && !IsHave(lines[j])
    {
      ReachesStopIsDecided(lines, i, j);
    }
  }

  lemma FreshV2IsFullClone(lines: seq<string>)
    ensures RequestV2(lines).isFreshClone <==> FullCloneV2(lines)
  {
    var s := SectionsOf(lines);
    if Decided(lines) {
      ArgumentsSatisfy(lines, s.head, s.stop);
      LastCommandIff(lines[..s.head], "fetch");
      if !IsHave(lines[s.stop]) { assert ReachesStop(lines, s.head, s.stop); }
    }
    forall i, j | 0 <= i < j < |lines| && ReachesStop(lines, i, j)
      ensures s == Sections(i, j) && !IsHave(lines[j])
      ensures CommandIn(lines[..i]) == "fetch" <==> LastCommand(lines[..i], "fetch")
    {
      ReachesStopIsDecided(lines, i, j);
      LastCommandIff(lines[..i], "fetch");
    }
  }

  /** The wanted object is the second field: what a client appends after it does not matter. */
  lemma WantIsSecondField(hash: string, rest: string)
    requires hash != "" && forall c | c in hash :: !IsSpace(c)
    requires rest == "" || IsSpace(rest[0])
    ensures WantOf("want " + hash + rest) == [hash]
  {
    hide Fields, WordLength;
    var line := "want " + hash + rest;
    assert line == "want" + (" " + (hash + rest));
    WordOf("want", " " + (hash + rest));
    SpaceIsSkipped(hash + rest);
    WordOf(hash, rest);
  }

  lemma SpaceIsSkipped(s: string)
    ensures Fields(" " + s) == Fields(s)
  {
    assert (" " + s)[1..] == s;
  }

  lemma {:induction false} WordOf(word: string, rest: string)
    requires (forall c | c in word :: !IsSpace(c)) && (rest == "" || IsSpace(rest[0]))
    ensures WordLength(word + rest) == |word|
    ensures word != "" ==> Fields(word + rest) == [word] + Fields(rest)
    decreases |word|
  {
    if word == "" {
      assert word + rest == rest;
    } else {
      assert (word + rest)[1..] == word[1..] + rest;
      assert word[0] in word;
      WordOf(word[1..], rest);
      assert (word + rest)[..|word|] == word && (word + rest)[|word|..] == rest;
    }
  }

  // ----- Bytes after the deciding packet -----

  /** The first blank line and the deciding line fix the request. */
  lemma DecidedByPrefix(a: seq<string>, b: seq<string>)
    requires Decided(a) && SectionsOf(a).stop < |b| && a[..SectionsOf(a).stop + 1] == b[..SectionsOf(a).stop + 1]
    ensures Decided(b) && RequestV1(b) == RequestV1(a) && RequestV2(b) == RequestV2(a)
  {
    hide IsDeciding, IsHave;
    var s := SectionsOf(a);
    var n := s.stop + 1;
    forall k | 0 <= k < n ensures a[k] == b[k] { assert a[..n][k] == b[..n][k]; }
    assert a[..s.stop] == b[..s.stop] && a[..s.head] == b[..s.head];
    assert a[s.head + 1..s.stop] == b[s.head + 1..s.stop];
    assert b == b[..s.head] + [""] + b[s.head + 1..s.stop] + b[s.stop..];
    SectionsUnique(b, b[..s.head], b[s.head + 1..s.stop]);
  }

  /** Once a body decides, only the bytes up to the end of its deciding packet matter: any body
      that agrees on those is classified alike, and neither is reported as malformed. */
  lemma BytesAfterDecisionIgnored(body: string, other: string)
    requires Decided(ScanAll(body).lines)
    requires var q := PositionAfter(body, SectionsOf(ScanAll(body).lines).stop + 1);
             q <= |other| && other[..q] == body[..q]
    ensures Decided(ScanAll(other).lines)
    ensures RequestV1(ScanAll(other).lines) == RequestV1(ScanAll(body).lines)
    ensures RequestV2(ScanAll(other).lines) == RequestV2(ScanAll(body).lines)
  {
    var mine, theirs := ScanAll(body).lines, ScanAll(other).lines;
    hide ReadPacket, ScanAll, RequestV1, RequestV2, SectionsOf, PositionAfter;
    LinesAgree(body, other, SectionsOf(mine).stop + 1);
    DecidedByPrefix(mine, theirs);
  }

  /** Shallow lines before the first blank line do not count: a body that lists what it wants,
      says it is shallow, and then sends a flush and `done` is classified as a full clone. */
  lemma ShallowBeforeFlushIgnored(wants: string, commit: string)
    requires wants != ""
    ensures RequestV1([wants, "shallow " + commit, "", "done"]).isFreshClone
  {
    var lines := [wants, "shallow " + commit, "", "done"];
    assert ReachesStop(lines, 2, 3);
    FreshV1IsFullClone(lines);
  }

  /** A full clone as the comments in the source describe it: no shallow line anywhere before
      the line that ends the negotiation. */
  ghost predicate DocumentedFullClone(lines: seq<string>) {
    exists i, j :: 0 <= i < j < |lines| && ReachesStop(lines, i, j) &&
                   forall k :: 0 <= k < j ==> !("shallow " <= lines[k]) && !("deepen" <= lines[k])
  }

  /** No shallow or deepen line comes before the first blank line. */
  ghost predicate NoneBeforeBlank(lines: seq<string>) {
    forall k :: 0 <= k < |lines| && (forall n :: 0 <= n <= k ==> lines[n] != "") ==>
      !("shallow " <= lines[k]) && !("deepen" <= lines[k])
  }

  /** The classification meets that description exactly when no shallow or deepen line precedes
      the first blank line. */
  lemma DocumentedMeaningV1(lines: seq<string>)
    ensures DocumentedFullClone(lines) <==> RequestV1(lines).isFreshClone && NoneBeforeBlank(lines)
  {
    hide RequestV1;
    FreshV1IsFullClone(lines);
    if DocumentedFullClone(lines) {
      var i, j :| 0 <= i < j < |lines| && ReachesStop(lines, i, j) &&
          forall k :: 0 <= k < j ==> !("shallow " <= lines[k]) && !("deepen" <= lines[k]);
      assert FullCloneV1(lines);
      forall k | 0 <= k < |lines| && forall n :: 0 <= n <= k ==> lines[n] != ""
        ensures !("shallow " <= lines[k]) && !("deepen" <= lines[k])
      {
        assert lines[i] == "";
      }
    }
    if FullCloneV1(lines) && NoneBeforeBlank(lines) {
      var i, j :| 0 <= i < j < |lines| && ReachesStop(lines, i, j) &&
          forall k :: i < k < j ==> !("shallow " <= lines[k]) && !("deepen" <= lines[k]);
      forall k | 0 <= k < j ensures !("shallow " <= lines[k]) && !("deepen" <= lines[k]) {
        assert k == i ==> lines[k] == "";
        assert k < i ==> forall n :: 0 <= n <= k ==> lines[n] != "";
      }
    }
  }

  // ----- The other fields, on spelled-out lines -----

  /** Lines of two sections and a stop. */
  predicate Sectioned(first: seq<string>, args: seq<string>, stop: string) {
    && (forall k :: 0 <= k < |first| ==> first[k] != "")
    && (forall k :: 0 <= k < |args| ==> args[k] != "done" && args[k] != "" && !("have " <= args[k]))
    && (stop == "done" || stop == "" || "have " <= stop)
  }

  /** Whatever comes after the stop: the wants are those of the first section (v1) or the arguments
      (v2), the request is shallow exactly if an argument says shallow or deepen, filtered exactly
      if one says filter, and the command is the last one of the first section. */
  lemma FieldsOf(first: seq<string>, args: seq<string>, stop: string, rest: seq<string>)
    requires Sectioned(first, args, stop)
    ensures var lines := first + [""] + args + ([stop] + rest);
            var shallow := exists k :: 0 <= k < |args| && ("shallow " <= args[k] || "deepen" <= args[k]);
            && (RequestV1(lines).isShallow <==> shallow) && RequestV1(lines).wants == WantsIn(first)
            && (RequestV2(lines).isShallow <==> shallow) && RequestV2(lines).wants == WantsIn(args)
            && (RequestV2(lines).hasFilter <==> exists k :: 0 <= k < |args| && "filter " <= args[k])
            && RequestV2(lines).isV2 && !RequestV1(lines).isV2 && RequestV1(lines).v2Command == ""
            && forall command | command != "" :: RequestV2(lines).v2Command == command <==> LastCommand(first, command)
  {
    var lines := first + [""] + args + ([stop] + rest);
    SectionsUnique(lines, first, args);
    assert Arguments(lines) == args && lines[..|first|] == first;
    forall command | command != "" ensures CommandIn(first) == command <==> LastCommand(first, command) {
      LastCommandIff(first, command);
    }
  }

  /** A line that does not ask for an object, or names none, adds no want. */
  lemma OtherLinesWantNothing(line: string)
    ensures !("want " <= line) ==> WantOf(line) == []
    ensures "want " <= line && (forall k :: 5 <= k < |line| ==> IsSpace(line[k])) ==> WantOf(line) == []
  {
    if "want " <= line && forall k :: 5 <= k < |line| ==> IsSpace(line[k]) {
      assert line == "want" + line[4..];
      assert line[..5] == "want " && line[4] == line[..5][4];
      WordOf("want", line[4..]);
      BlankHasNoFields(line[4..]);
    }
  }

  lemma {:induction false} BlankHasNoFields(s: string)
    requires forall k :: 0 <= k < |s| ==> IsSpace(s[k])
    ensures Fields(s) == []
  {
    if s != "" { BlankHasNoFields(s[1..]); }
  }

  /** Each of these lines after the first blank one makes a request not fresh. */
  lemma NotFreshAfterBlank(first: seq<string>, before: seq<string>, line: string, x: string, after: seq<string>)
    requires forall k :: 0 <= k < |first| ==> first[k] != ""
    requires forall k :: 0 <= k < |before| ==> before[k] != "done" && before[k] != ""
    ensures line == "deepen 1" || line == "shallow " + x || line == "have " + x ==>
              var lines := first + [""] + before + [line] + after;
              !RequestV1(lines).isFreshClone && !RequestV2(lines).isFreshClone
    ensures line == "filter " + x ==>
              !RequestV2(first + [""] + before + [line] + after).isFreshClone
  {
    hide RequestV1, RequestV2;
    var lines := first + [""] + before + [line] + after;
    FreshV1IsFullClone(lines);
    FreshV2IsFullClone(lines);
    var n := |first| + 1 + |before|;
    assert lines[n] == line && lines[|first|] == "";
    forall k | 0 <= k < |first| ensures lines[k] == first[k] { }
    forall k | |first| < k < n ensures lines[k] == before[k - |first| - 1] { }
    forall i, j | 0 <= i < j < |lines| && ReachesStop(lines, i, j) ensures i == |first| && j >= n {
    }
    assert "deepen 1"[..6] == "deepen" && "shallow " <= "shallow " + x && "have " <= "have " + x &&
        "filter " <= "filter " + x;
    assert line == "deepen 1" ==> line[1] == 'e';
    assert "done"[1] == 'o' && "done"[0] == 'd';
    assert line == "shallow " + x ==> line[0] == 's';
    assert line == "have " + x ==> line[0] == 'h';
    assert line == "filter " + x ==> line[0] == 'f';
  }
}
