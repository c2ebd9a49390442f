/** Hostname globs, compiled by text rewriting into a regular expression.
    internal/glob/glob.go quotes the pattern and then replaces quoted stars; this module
    gives the resulting text a meaning by parsing it, and proves that the meaning is the
    glob language read directly off the pattern. */
module Glob {
  import opened Numbers

  // The characters that regexp.QuoteMeta escapes.
  predicate IsMeta(c: char) {
    c == '\\' || c == '.' || c == '+' || c == '*' || c == '?' || c == '(' || c == ')' || c == '|' ||
    c == '[' || c == ']' || c == '{' || c == '}' || c == '^' || c == '$'
  }

  // ----- The compiler: three passes over text -----

  function Quote(c: char): string {
    if IsMeta(c) then ['\\', c] else [c]
  }

  function QuoteMeta(s: string): string {
    if s == "" then "" else Quote(s[0]) + QuoteMeta(s[1..])
  }

  /** Leftmost, non-overlapping replacement of every occurrence of `from`. */
  function ReplaceAll(s: string, from: string, into: string): string
    requires from != ""
  {
    if |s| < |from| then s
    else if from <= s then into + ReplaceAll(s[|from|..], from, into)
    else [s[0]] + ReplaceAll(s[1..], from, into)
  }

  function ExpressionFor(pattern: string): string {
    var escaped := QuoteMeta(pattern);
    var doubled := ReplaceAll(escaped, "\\*\\*", ".+");
    "(?i)^" + ReplaceAll(doubled, "\\*", "[^.]+") + "$"
  }

  // ----- The regular expressions the compiler can emit -----

  /** The characters that do not stand for themselves in a regular expression. */
  predicate IsSpecial(c: char) {
    c in "\\.+*?()|[]{}^$"
  }

  datatype Atom = Lit(c: char) | AnyChar | NotDot

  datatype Item = One(atom: Atom) | Plus(atom: Atom) | BeginText | EndText

  datatype Regex = Regex(foldCase: bool, items: seq<Item>)

  /** One atom and the number of characters it occupies. A special character that is not
      escaped and does not begin `.` or `[^.]` is outside the fragment. */
  function ParseAtom(t: string): (r: Option<(Atom, nat)>)
    requires t != ""
    ensures r.Some? ==> 1 <= r.value.1 <= |t|
  {
    if t[0] == '\\' then
      if |t| > 1 && IsSpecial(t[1]) then Some((Lit(t[1]), 2)) else None
    else if t[0] == '.' then Some((AnyChar, 1))
    else if "[^.]" <= t then Some((NotDot, 4))
    else if IsSpecial(t[0]) then None
    else Some((Lit(t[0]), 1))
  }

  function ParseItems(t: string): Option<seq<Item>>
    decreases |t|
  {
    if t == "" then Some([])
    else if t[0] == '^' then Prepend(BeginText, ParseItems(t[1..]))
    else if t[0] == '$' then Prepend(EndText, ParseItems(t[1..]))
    else
      match ParseAtom(t)
      case None => None
      case Some((a, n)) =>
        if n < |t| && t[n] == '+' then Prepend(Plus(a), ParseItems(t[n + 1..]))
        else Prepend(One(a), ParseItems(t[n..]))
  }

  function Prepend(item: Item, rest: Option<seq<Item>>): Option<seq<Item>> {
    match rest
    case None => None
    case Some(items) => Some([item] + items)
  }

  function ParseRegex(t: string): Option<Regex> {
    var fold := "(?i)" <= t;
    match ParseItems(if fold then t[4..] else t)
    case None => None
    case Some(items) => Some(Regex(fold, items))
  }

  // ----- Matching. `same` is the case folding that (?i) selects. -----

  type Folding = (char, char) -> bool

  predicate Accepts(a: Atom, c: char, same: Folding) {
    match a
    case Lit(x) => same(x, c)
    case AnyChar => c != '\n'
    case NotDot => c != '.'
  }

  ghost predicate MatchFrom(items: seq<Item>, s: string, i: nat, same: Folding)
    requires i <= |s|
    decreases |items|
  {
    items == [] ||
    match items[0]
    case BeginText => i == 0 && MatchFrom(items[1..], s, i, same)
    case EndText => i == |s| && MatchFrom(items[1..], s, i, same)
    case One(a) => i < |s| && Accepts(a, s[i], same) && MatchFrom(items[1..], s, i + 1, same)
    case Plus(a) =>
      exists j: nat :: i < j <= |s| && AllAccepted(a, s, i, j, same) && MatchFrom(items[1..], s, j, same)
  }

  ghost predicate AllAccepted(a: Atom, s: string, i: nat, j: nat, same: Folding)
    requires i <= j <= |s|
  {
    forall k :: i <= k < j ==> Accepts(a, s[k], same)
  }

  /** An unanchored search, as regexp.MatchString performs it. */
  ghost predicate MatchString(re: Regex, s: string, same: Folding) {
    if re.foldCase then Search(re.items, s, same) else Search(re.items, s, (x, y) => x == y)
  }

  ghost predicate Search(items: seq<Item>, s: string, same: Folding) {
    exists i: nat :: i <= |s| && MatchFrom(items, s, i, same)
  }

  datatype Matcher = Matcher(pattern: string, regex: Regex)

  function CompileGlob(pattern: string): Option<Matcher> {
    match ParseRegex(ExpressionFor(pattern))
    case None => None
    case Some(re) => Some(Matcher(pattern, re))
  }

  /** A nil matcher matches nothing. */
  ghost predicate Match(g: Option<Matcher>, hostname: string, same: Folding) {
    g.Some? && MatchString(g.value.regex, hostname, same)
  }

  // ----- The glob language, read off the pattern -----

  /** `**` takes one or more characters (none a newline), `*` one or more characters none of
      which is a dot, and any other character stands for itself up to case. */
  ghost predicate InGlob(p: string, s: string, same: Folding)
    decreases |p|
  {
    if p == "" then s == ""
    else if "**" <= p then
      exists n: nat :: 1 <= n <= |s| && '\n' !in s[..n] && InGlob(p[2..], s[n..], same)
    else if p[0] == '*' then
      exists n: nat :: 1 <= n <= |s| && '.' !in s[..n] && InGlob(p[1..], s[n..], same)
    else s != "" && same(p[0], s[0]) && InGlob(p[1..], s[1..], same)
  }

  // ----- Proof: what each pass produces -----

  /** The text after the `**` pass. */
  function DoubledText(p: string): string
    decreases |p|
  {
    if p == "" then "" else if "**" <= p then ".+" + DoubledText(p[2..]) else Quote(p[0]) + DoubledText(p[1..])
  }

  /** The text after the `*` pass. */
  function FinalText(p: string): string
    decreases |p|
  {
    if p == "" then ""
    else if "**" <= p then ".+" + FinalText(p[2..])
    else if p[0] == '*' then "[^.]+" + FinalText(p[1..])
    else Quote(p[0]) + FinalText(p[1..])
  }

  function Tokens(p: string): seq<Item>
    decreases |p|
  {
    if p == "" then []
    else if "**" <= p then [Plus(AnyChar)] + Tokens(p[2..])
    else if p[0] == '*' then [Plus(NotDot)] + Tokens(p[1..])
    else [One(Lit(p[0]))] + Tokens(p[1..])
  }

  lemma StepPast(c: char, rest: string, from: string, into: string)
    requires from != "" && !(from <= [c] + rest)
    ensures ReplaceAll([c] + rest, from, into) == [c] + ReplaceAll(rest, from, into)
  {
    assert ([c] + rest)[1..] == rest;
  }

  lemma StepOver(from: string, rest: string, into: string)
    requires from != ""
    ensures ReplaceAll(from + rest, from, into) == into + ReplaceAll(rest, from, into)
  {
    assert (from + rest)[|from|..] == rest;
  }

  /** Quoted text never begins with a star, so a replacement pass that sees a backslash and a
      star sees a quoting backslash and the star it quotes. */
  lemma QuotedNeverStartsWithStar(s: string)
    ensures QuoteMeta(s) == "" || QuoteMeta(s)[0] != '*'
    ensures DoubledText(s) == "" || DoubledText(s)[0] != '*'
  {
  }

  lemma PassOverQuoted(c: char, rest: string, from: string, into: string)
    requires from == "\\*" || from == "\\*\\*"
    requires c != '*' || !(from <= "\\*" + rest)
    requires rest == "" || rest[0] != '*'
    ensures ReplaceAll(Quote(c) + rest, from, into) == Quote(c) + ReplaceAll(rest, from, into)
  {
    if IsMeta(c) {
      assert Quote(c) + rest == ['\\'] + ([c] + rest);
      assert !(from <= ['\\'] + ([c] + rest)) by {
        if c != '*' { assert (['\\'] + ([c] + rest))[1] == c; assert from[1] == '*'; }
        else { assert ['\\'] + ([c] + rest) == "\\*" + rest; }
      }
      StepPast('\\', [c] + rest, from, into);
      assert !(from <= [c] + rest) by {
        if c == '\\' && rest != "" { assert ([c] + rest)[1] != '*'; }
        if c != '\\' { assert ([c] + rest)[0] != from[0]; }
      }
      StepPast(c, rest, from, into);
      assert Quote(c) + ReplaceAll(rest, from, into) == ['\\'] + ([c] + ReplaceAll(rest, from, into));
    } else {
      assert ([c] + rest)[0] != from[0];
      StepPast(c, rest, from, into);
    }
  }

  lemma {:induction false} DoubledPass(p: string)
    ensures ReplaceAll(QuoteMeta(p), "\\*\\*", ".+") == DoubledText(p)
    decreases |p|
  {
    if p != "" {
      if "**" <= p {
        assert QuoteMeta(p) == "\\*\\*" + QuoteMeta(p[2..]) by {
          assert p[1..][1..] == p[2..];
          assert p[0] == '*' && p[1..][0] == '*';
          assert Quote('*') == "\\*";
          assert QuoteMeta(p[1..]) == "\\*" + QuoteMeta(p[2..]);
          assert "\\*" + ("\\*" + QuoteMeta(p[2..])) == "\\*\\*" + QuoteMeta(p[2..]);
        }
        StepOver("\\*\\*", QuoteMeta(p[2..]), ".+");
        DoubledPass(p[2..]);
      } else {
        QuotedNeverStartsWithStar(p[1..]);
        if p[0] == '*' { NextIsNotQuotedStar(p[1..]); }
        PassOverQuoted(p[0], QuoteMeta(p[1..]), "\\*\\*", ".+");
        DoubledPass(p[1..]);
      }
    }
  }

  lemma NextIsNotQuotedStar(s: string)
    requires s == "" || s[0] != '*'
    ensures !("\\*\\*" <= "\\*" + QuoteMeta(s))
  {
    var t := "\\*" + QuoteMeta(s);
    if s != "" {
      assert t[2..] == Quote(s[0]) + QuoteMeta(s[1..]);
      assert IsMeta(s[0]) ==> t[3] == s[0];
      assert !IsMeta(s[0]) ==> t[2] == s[0];
    }
  }

  lemma {:induction false} SinglePass(p: string)
    ensures ReplaceAll(DoubledText(p), "\\*", "[^.]+") == FinalText(p)
    decreases |p|
  {
    if p != "" {
      if "**" <= p {
        var rest := DoubledText(p[2..]);
        assert ".+" + rest == ['.'] + (['+'] + rest);
        assert (['.'] + (['+'] + rest))[0] == '.' && (['+'] + rest)[0] == '+' && "\\*"[0] == '\\';
        StepPast('.', ['+'] + rest, "\\*", "[^.]+");
        StepPast('+', rest, "\\*", "[^.]+");
        SinglePass(p[2..]);
        assert ['.'] + (['+'] + FinalText(p[2..])) == ".+" + FinalText(p[2..]);
      } else {
        var rest := DoubledText(p[1..]);
        SinglePass(p[1..]);
        if p[0] == '*' {
          assert Quote(p[0]) + rest == "\\*" + rest;
          StepOver("\\*", rest, "[^.]+");
        } else {
          QuotedNeverStartsWithStar(p[1..]);
          PassOverQuoted(p[0], rest, "\\*", "[^.]+");
        }
      }
    }
  }

  /** The text never begins with a repetition sign, so an atom is repeated only where a star was. */
  lemma FinalNeverStartsWithPlus(p: string)
    ensures (FinalText(p) + "$")[0] != '+'
  {
  }

  lemma LiteralParses(c: char, rest: string)
    requires rest != "" && rest[0] != '+'
    ensures ParseItems(Quote(c) + rest) == Prepend(One(Lit(c)), ParseItems(rest))
  {
    var t := Quote(c) + rest;
    assert t[|Quote(c)|..] == rest && t[|Quote(c)|] == rest[0];
    if IsMeta(c) {
      assert t[0] == '\\' && t[1] == c;
    } else {
      assert t[0] == c;
    }
    assert ParseAtom(t) == Some((Lit(c), |Quote(c)|));
  }

  lemma StarsParse(rest: string)
    ensures ParseItems(".+" + rest) == Prepend(Plus(AnyChar), ParseItems(rest))
    ensures ParseItems("[^.]+" + rest) == Prepend(Plus(NotDot), ParseItems(rest))
  {
    var t := ".+" + rest;
    assert t[2..] == rest && t[0] == '.' && t[1] == '+';
    var u := "[^.]+" + rest;
    assert u[5..] == rest && "[^.]" <= u && u[0] == '[' && u[4] == '+';
  }

  lemma {:induction false} FinalParses(p: string)
    ensures ParseItems(FinalText(p) + "$") == Some(Tokens(p) + [EndText])
    decreases |p|
  {
    if p == "" {
      assert FinalText(p) + "$" == "$" && "$"[1..] == "";
      assert [EndText] + [] == Tokens(p) + [EndText];
    } else if "**" <= p {
      FinalParses(p[2..]);
      var rest := FinalText(p[2..]) + "$";
      StarsParse(rest);
      assert FinalText(p) + "$" == ".+" + rest;
      assert [Plus(AnyChar)] + (Tokens(p[2..]) + [EndText]) == Tokens(p) + [EndText];
    } else if p[0] == '*' {
      FinalParses(p[1..]);
      var rest := FinalText(p[1..]) + "$";
      StarsParse(rest);
      assert FinalText(p) + "$" == "[^.]+" + rest;
      assert [Plus(NotDot)] + (Tokens(p[1..]) + [EndText]) == Tokens(p) + [EndText];
    } else {
      FinalParses(p[1..]);
      FinalNeverStartsWithPlus(p[1..]);
      var rest := FinalText(p[1..]) + "$";
      LiteralParses(p[0], rest);
      assert FinalText(p) + "$" == Quote(p[0]) + rest;
      assert [One(Lit(p[0]))] + (Tokens(p[1..]) + [EndText]) == Tokens(p) + [EndText];
    }
  }

  lemma {:induction false} TokensMean(p: string, s: string, i: nat, same: Folding)
    requires i <= |s|
    ensures MatchFrom(Tokens(p) + [EndText], s, i, same) <==> InGlob(p, s[i..], same)
    decreases |p|, 0
  {
    var items := Tokens(p) + [EndText];
    if p == "" {
      assert items == [EndText] && items[1..] == [];
    } else if "**" <= p {
      PlusMeans(p[2..], AnyChar, s, i, same);
      assert items == [Plus(AnyChar)] + (Tokens(p[2..]) + [EndText]);
      assert items[1..] == Tokens(p[2..]) + [EndText];
    } else if p[0] == '*' {
      PlusMeans(p[1..], NotDot, s, i, same);
      assert items[1..] == Tokens(p[1..]) + [EndText];
    } else {
      assert items[1..] == Tokens(p[1..]) + [EndText];
      if i < |s| {
        TokensMean(p[1..], s, i + 1, same);
        assert s[i..][1..] == s[i + 1..];
      }
    }
  }

  function Barred(a: Atom): char {
    if a == NotDot then '.' else '\n'
  }

  lemma FreeOfBarred(a: Atom, s: string, i: nat, n: nat, same: Folding)
    requires i + n <= |s| && (a == AnyChar || a == NotDot)
    ensures Barred(a) !in s[i..][..n] <==> AllAccepted(a, s, i, i + n, same)
  {
    var t := s[i..][..n];
    assert forall k :: 0 <= k < n ==> t[k] == s[i + k];
    if Barred(a) !in t {
      forall k | i <= k < i + n ensures Accepts(a, s[k], same) { assert t[k - i] in t; }
    }
  }

  /** One repeated atom matches what one star takes: the split points correspond. */
  lemma PlusMeans(rest: string, a: Atom, s: string, i: nat, same: Folding)
    requires i <= |s| && (a == AnyChar || a == NotDot)
    ensures (exists j: nat :: i < j <= |s| && AllAccepted(a, s, i, j, same) &&
              MatchFrom(Tokens(rest) + [EndText], s, j, same))
       <==> (exists n: nat :: 1 <= n <= |s[i..]| && Barred(a) !in s[i..][..n] && InGlob(rest, s[i..][n..], same))
    decreases |rest|, 1
  {
    var items := Tokens(rest) + [EndText];
    if j: nat :| i < j <= |s| && AllAccepted(a, s, i, j, same) && MatchFrom(items, s, j, same) {
      var n: nat := j - i;
      TokensMean(rest, s, j, same);
      FreeOfBarred(a, s, i, n, same);
      assert s[i..][n..] == s[j..];
      assert 1 <= n <= |s[i..]| && Barred(a) !in s[i..][..n] && InGlob(rest, s[i..][n..], same);
    }
    if n: nat :| 1 <= n <= |s[i..]| && Barred(a) !in s[i..][..n] && InGlob(rest, s[i..][n..], same) {
      var j := i + n;
      assert s[i..][n..] == s[j..];
      TokensMean(rest, s, j, same);
      FreeOfBarred(a, s, i, n, same);
      assert i < j <= |s| && AllAccepted(a, s, i, j, same) && MatchFrom(items, s, j, same);
    }
  }

  lemma AnchoredParses(body: string)
    ensures ParseRegex("(?i)^" + body) ==
            match ParseItems(body)
            case None => None
            case Some(items) => Some(Regex(true, [BeginText] + items))
  {
    var t := "(?i)^" + body;
    assert "(?i)" <= t;
    assert t[4..][0] == '^' && t[4..][1..] == body;
  }

  lemma CompiledRegex(p: string)
    ensures ParseRegex(ExpressionFor(p)) == Some(Regex(true, [BeginText] + (Tokens(p) + [EndText])))
  {
    DoubledPass(p);
    SinglePass(p);
    FinalParses(p);
    AnchoredParses(FinalText(p) + "$");
    assert ExpressionFor(p) == "(?i)^" + (FinalText(p) + "$");
  }

  // ----- Main results -----

  /** Compilation never fails, and the compiled matcher accepts exactly the glob's language. */
  lemma CompiledGlobMeansGlob(p: string, hostname: string, same: Folding)
    ensures CompileGlob(p).Some? && CompileGlob(p).value.pattern == p
    ensures Match(CompileGlob(p), hostname, same) <==> InGlob(p, hostname, same)
  {
    CompiledRegex(p);
    var rest := Tokens(p) + [EndText];
    var items := [BeginText] + rest;
    assert items[1..] == rest;
    TokensMean(p, hostname, 0, same);
    assert hostname[0..] == hostname;
    forall i: nat | i <= |hostname|
      ensures MatchFrom(items, hostname, i, same) <==> i == 0 && MatchFrom(rest, hostname, 0, same)
    {
    }
    var re := CompileGlob(p).value.regex;
    assert re == Regex(true, items);
    assert Search(items, hostname, same) <==> MatchFrom(items, hostname, 0, same);
  }

  function Dots(s: string): nat {
    if s == "" then 0 else (if s[0] == '.' then 1 else 0) + Dots(s[1..])
  }

  lemma {:induction false} DotsSplit(s: string, n: nat)
    requires n <= |s|
    ensures Dots(s) == Dots(s[..n]) + Dots(s[n..])
    decreases n
  {
    if n == 0 {
      assert s[..n] == "" && s[n..] == s;
    } else {
      DotsSplit(s[1..], n - 1);
      assert s[..n][1..] == s[1..][..n - 1] && s[n..] == s[1..][n - 1..];
    }
  }

  lemma {:induction false} NoDots(s: string)
    requires '.' !in s
    ensures Dots(s) == 0
  {
    if s != "" { NoDots(s[1..]); }
  }

  /** A pattern without `**` fixes the number of labels: a host it accepts has exactly as many
      dots as the pattern, whenever case folding relates a dot only to itself. */
  lemma {:induction false} SingleStarKeepsLabelCount(p: string, s: string, same: Folding)
    requires forall i :: 0 <= i < |p| - 1 ==> !(p[i] == '*' && p[i + 1] == '*')
    requires forall x, y :: same(x, y) ==> (x == '.' <==> y == '.')
    requires InGlob(p, s, same)
    ensures Dots(s) == Dots(p)
    decreases |p|
  {
    if p != "" {
      if |p| > 1 { assert !(p[0] == '*' && p[0 + 1] == '*'); }
      forall i | 0 <= i < |p[1..]| - 1 ensures !(p[1..][i] == '*' && p[1..][i + 1] == '*') {
        assert !(p[i + 1] == '*' && p[i + 1 + 1] == '*');
      }
      if p[0] == '*' {
        var n: nat :| 1 <= n <= |s| && '.' !in s[..n] && InGlob(p[1..], s[n..], same);
        DotsSplit(s, n);
        NoDots(s[..n]);
        SingleStarKeepsLabelCount(p[1..], s[n..], same);
      } else {
        SingleStarKeepsLabelCount(p[1..], s[1..], same);
      }
    }
  }

  /** Without a star the glob is a plain comparison up to case: nothing in the pattern, not even
      a regular-expression sign, has a meaning of its own. */
  lemma {:induction false} StarlessIsComparison(p: string, s: string, same: Folding)
    requires '*' !in p
    ensures InGlob(p, s, same) <==> |p| == |s| && forall i :: 0 <= i < |p| ==> same(p[i], s[i])
    decreases |p|
  {
    if p != "" && s != "" {
      StarlessIsComparison(p[1..], s[1..], same);
      assert p[0] != '*';
      if InGlob(p, s, same) {
        forall i | 0 <= i < |p| ensures same(p[i], s[i]) {
          if i > 0 { assert p[1..][i - 1] == p[i] && s[1..][i - 1] == s[i]; }
        }
      }
    }
  }
}
