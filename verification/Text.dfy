/** Splitting, joining and sorting strings as the Go standard library does. */
module Text {

  /** strings.Split on one character: one part more than there are separators. */
  function SplitOn(s: string, sep: char): (parts: seq<string>)
    ensures |parts| >= 1
  {
    if s == "" then [""]
    else
      var rest := SplitOn(s[1..], sep);
      if s[0] == sep then [""] + rest else [[s[0]] + rest[0]] + rest[1..]
  }

  /** strings.Join with one character. */
  function Join(parts: seq<string>, sep: char): string {
    if parts == [] then ""
    else if |parts| == 1 then parts[0]
    else parts[0] + [sep] + Join(parts[1..], sep)
  }

  predicate NoneHas(parts: seq<string>, sep: char) {
    forall i :: 0 <= i < |parts| ==> sep !in parts[i]
  }

  lemma {:induction false} SplitWithout(s: string, sep: char)
    requires sep !in s
    ensures SplitOn(s, sep) == [s]
  {
    if s != "" {
      assert s[0] in s;
      SplitWithout(s[1..], sep);
      assert [s[0]] + s[1..] == s && [s[1..]][1..] == [];
    }
  }

  function PushFront(c: char, parts: seq<string>, sep: char): seq<string>
    requires parts != []
  {
    if c == sep then [""] + parts else [[c] + parts[0]] + parts[1..]
  }

  lemma SplitCons(c: char, s: string, sep: char)
    ensures SplitOn([c] + s, sep) == PushFront(c, SplitOn(s, sep), sep)
  {
    assert ([c] + s)[1..] == s;
  }

  lemma PushFrontAppend(c: char, a: seq<string>, b: seq<string>, sep: char)
    requires a != []
    ensures PushFront(c, a + b, sep) == PushFront(c, a, sep) + b
  {
    assert (a + b)[0] == a[0] && (a + b)[1..] == a[1..] + b;
  }

  /** Splitting distributes over a separator. */
  lemma {:induction false} SplitAppend(a: string, b: string, sep: char)
    ensures SplitOn(a + [sep] + b, sep) == SplitOn(a, sep) + SplitOn(b, sep)
    decreases |a|
  {
    if a == "" {
      assert a + [sep] + b == [sep] + b;
      SplitCons(sep, b, sep);
    } else {
      hide SplitOn, PushFront;
      var t := a[1..] + [sep] + b;
      assert a + [sep] + b == [a[0]] + t && a == [a[0]] + a[1..];
      SplitAppend(a[1..], b, sep);
      SplitCons(a[0], t, sep);
      SplitCons(a[0], a[1..], sep);
      PushFrontAppend(a[0], SplitOn(a[1..], sep), SplitOn(b, sep), sep);
    }
  }

  lemma {:induction false} SplitJoin(parts: seq<string>, sep: char)
    requires parts != [] && NoneHas(parts, sep)
    ensures SplitOn(Join(parts, sep), sep) == parts
  {
    SplitWithout(parts[0], sep);
    if |parts| > 1 {
      SplitJoin(parts[1..], sep);
      SplitAppend(parts[0], Join(parts[1..], sep), sep);
      assert parts == [parts[0]] + parts[1..];
    }
  }

  lemma {:induction false} SplitFree(s: string, sep: char)
    ensures NoneHas(SplitOn(s, sep), sep)
  {
    if s != "" { SplitFree(s[1..], sep); }
  }

  lemma {:induction false} JoinSplit(s: string, sep: char)
    ensures Join(SplitOn(s, sep), sep) == s
  {
    if s != "" {
      JoinSplit(s[1..], sep);
      var rest := SplitOn(s[1..], sep);
      if s[0] == sep {
        assert ([""] + rest)[1..] == rest;
        assert "" + [sep] + s[1..] == s;
      } else {
        var all := [[s[0]] + rest[0]] + rest[1..];
        assert all[1..] == rest[1..];
        if |rest| == 1 {
          assert s == [s[0]] + s[1..];
        } else {
          assert ([s[0]] + rest[0]) + [sep] + Join(rest[1..], sep) == [s[0]] + s[1..];
        }
      }
    }
  }

  lemma {:induction false} JoinAppend(a: seq<string>, b: seq<string>, sep: char)
    requires a != [] && b != []
    ensures Join(a + b, sep) == Join(a, sep) + [sep] + Join(b, sep)
  {
    if |a| == 1 {
      assert (a + b)[1..] == b;
    } else {
      JoinAppend(a[1..], b, sep);
      assert (a + b)[1..] == a[1..] + b && (a + b)[0] == a[0];
    }
  }

  lemma {:induction false} JoinFree(parts: seq<string>, sep: char, c: char)
    requires NoneHas(parts, c) && c != sep
    ensures c !in Join(parts, sep)
  {
    if |parts| > 1 { JoinFree(parts[1..], sep, c); }
  }

  /** Joining lists of non-empty parts that do not hold the separator loses nothing. */
  lemma JoinInjective(xs: seq<string>, ys: seq<string>, sep: char)
    requires NoneHas(xs, sep) && NoneHas(ys, sep) && Join(xs, sep) == Join(ys, sep)
    requires (forall i :: 0 <= i < |xs| ==> xs[i] != "") && forall i :: 0 <= i < |ys| ==> ys[i] != ""
    ensures xs == ys
  {
    if xs != [] { SplitJoin(xs, sep); JoinNonEmpty(xs, sep); }
    if ys != [] { SplitJoin(ys, sep); JoinNonEmpty(ys, sep); }
  }

  lemma JoinNonEmpty(xs: seq<string>, sep: char)
    requires xs != [] && xs[0] != ""
    ensures Join(xs, sep) != ""
  {
  }

  // ----- Order -----

  /** Comparison byte by byte. */
  predicate Leq(a: string, b: string) {
    a == "" || (b != "" && (a[0] < b[0] || (a[0] == b[0] && Leq(a[1..], b[1..]))))
  }

  lemma {:induction false} LeqAntisymmetric(a: string, b: string)
    requires Leq(a, b) && Leq(b, a)
    ensures a == b
  {
    if a != "" && b != "" {
      LeqAntisymmetric(a[1..], b[1..]);
      assert a == [a[0]] + a[1..] && b == [b[0]] + b[1..];
    }
  }

  lemma {:induction false} LeqTotal(a: string, b: string)
    ensures Leq(a, b) || Leq(b, a)
  {
    if a != "" && b != "" { LeqTotal(a[1..], b[1..]); }
  }

  lemma {:induction false} LeqTransitive(a: string, b: string, c: string)
    requires Leq(a, b) && Leq(b, c)
    ensures Leq(a, c)
  {
    if a != "" && a[0] == b[0] == c[0] { LeqTransitive(a[1..], b[1..], c[1..]); }
  }

  predicate Sorted(s: seq<string>) {
    forall i, j :: 0 <= i < j < |s| ==> Leq(s[i], s[j])
  }

  function Insert(x: string, s: seq<string>): (r: seq<string>)
    ensures multiset(r) == multiset(s) + multiset{x}
  {
    if s == [] then [x]
    else if Leq(x, s[0]) then [x] + s
    else
      var r := Insert(x, s[1..]);
      assert s == [s[0]] + s[1..];
      [s[0]] + r
  }

  /** sort.Strings. */
  function Sort(s: seq<string>): (r: seq<string>)
    ensures multiset(r) == multiset(s)
  {
    if s == [] then [] else
      assert s == [s[0]] + s[1..];
      Insert(s[0], Sort(s[1..]))
  }

  lemma {:induction false} InsertSorted(x: string, s: seq<string>)
    requires Sorted(s)
    ensures Sorted(Insert(x, s))
  {
    if s != [] {
      if Leq(x, s[0]) {
        forall j | 0 <= j < |s| ensures Leq(x, s[j]) {
          if j > 0 { LeqTransitive(x, s[0], s[j]); }
        }
      } else {
        LeqTotal(x, s[0]);
        InsertSorted(x, s[1..]);
        var r := Insert(x, s[1..]);
        forall j | 0 <= j < |r| ensures Leq(s[0], r[j]) {
          assert r[j] in multiset(r);
          if r[j] != x {
            assert r[j] in multiset(s[1..]);
            var k :| 0 <= k < |s[1..]| && s[1..][k] == r[j];
            assert s[k + 1] == r[j];
          }
        }
      }
    }
  }

  lemma {:induction false} SortSorts(s: seq<string>)
    ensures Sorted(Sort(s))
  {
    if s != [] {
      SortSorts(s[1..]);
      InsertSorted(s[0], Sort(s[1..]));
    }
  }

  lemma FirstIsLeast(s: seq<string>, x: string)
    requires Sorted(s) && x in multiset(s)
    ensures Leq(s[0], x)
  {
    var i :| 0 <= i < |s| && s[i] == x;
    if i == 0 { LeqTotal(x, x); }
  }

  lemma TailMultiset(s: seq<string>)
    requires s != []
    ensures s == [s[0]] + s[1..] && s[0] in multiset(s) && multiset(s[1..]) == multiset(s) - multiset{s[0]}
  {
    assert s == [s[0]] + s[1..];
  }

  /** A multiset has one sorted listing. */
  lemma {:induction false} SortedUnique(a: seq<string>, b: seq<string>)
    requires Sorted(a) && Sorted(b) && multiset(a) == multiset(b)
    ensures a == b
  {
    hide Leq;
    assert |multiset(a)| == |a| && |multiset(b)| == |b|;
    if a != [] {
      TailMultiset(a);
      TailMultiset(b);
      FirstIsLeast(a, b[0]);
      FirstIsLeast(b, a[0]);
      LeqAntisymmetric(a[0], b[0]);
      SortedUnique(a[1..], b[1..]);
    }
  }

  lemma SortCanonical(a: seq<string>, b: seq<string>)
    ensures Sort(a) == Sort(b) <==> multiset(a) == multiset(b)
  {
    SortSorts(a);
    SortSorts(b);
    if multiset(a) == multiset(b) { SortedUnique(Sort(a), Sort(b)); }
  }

  // ----- White space and case -----

  /** White space in ASCII. */
  predicate IsSpace(c: char) {
    c == ' ' || '\t' <= c <= '\r'
  }

  lemma SpacesAre(c: char)
    ensures IsSpace(c) <==> c in " \t\n\U{000B}\U{000C}\r"
  {
  }

  function LowerChar(c: char): char {
    if 'A' <= c <= 'Z' then (c - 'A') + 'a' else c
  }

  /** strings.ToLower on ASCII. */
  function Lower(s: string): (r: string)
    ensures |r| == |s|
  {
    if s == "" then "" else [LowerChar(s[0])] + Lower(s[1..])
  }

  lemma {:induction false} LowerKeepsOut(s: string, c: char)
    requires c !in s && !('a' <= c <= 'z')
    ensures c !in Lower(s)
  {
    if s != "" {
      assert s[0] in s;
      LowerKeepsOut(s[1..], c);
    }
  }

  /** The same text but for the case of ASCII letters. */
  predicate SameUpToCase(a: string, b: string) {
    |a| == |b| && forall i :: 0 <= i < |a| ==> SameLetter(a[i], b[i])
  }

  predicate SameLetter(c: char, d: char) {
    || c == d
    || ('A' <= c <= 'Z' && d as int == c as int + 32)
    || ('A' <= d <= 'Z' && c as int == d as int + 32)
  }

  lemma {:induction false} LowerAt(s: string, i: nat)
    requires i < |s|
    ensures Lower(s)[i] == LowerChar(s[i])
  {
    if i > 0 { LowerAt(s[1..], i - 1); }
  }

  lemma AlreadyLower(s: string)
    requires forall i :: 0 <= i < |s| ==> !('A' <= s[i] <= 'Z')
    ensures Lower(s) == s
  {
    hide Lower;
    forall i | 0 <= i < |s| ensures Lower(s)[i] == s[i] { LowerAt(s, i); }
  }

  /** Two texts have the same lower case exactly if they are the same but for case. */
  lemma LowerSameIff(a: string, b: string)
    ensures Lower(a) == Lower(b) <==> SameUpToCase(a, b)
  {
    hide Lower;
    if |a| == |b| {
      forall i | 0 <= i < |a| ensures Lower(a)[i] == LowerChar(a[i]) && Lower(b)[i] == LowerChar(b[i]) {
        LowerAt(a, i);
        LowerAt(b, i);
      }
      forall i | 0 <= i < |a| ensures LowerChar(a[i]) == LowerChar(b[i]) <==> SameLetter(a[i], b[i]) { }
      if Lower(a) == Lower(b) {
        forall i | 0 <= i < |a| ensures SameLetter(a[i], b[i]) { assert Lower(a)[i] == Lower(b)[i]; }
      }
      if SameUpToCase(a, b) {
        forall i | 0 <= i < |a| ensures Lower(a)[i] == Lower(b)[i] { assert SameLetter(a[i], b[i]); }
      }
    }
  }

  lemma {:induction false} LowerPrefix(s: string, n: nat)
    requires n <= |s|
    ensures Lower(s)[..n] == Lower(s[..n]) && Lower(s)[n..] == Lower(s[n..])
  {
    if n > 0 {
      LowerPrefix(s[1..], n - 1);
      assert s[..n][1..] == s[1..][..n - 1] && s[n..] == s[1..][n - 1..];
    }
  }

  /** A text begins with a lower-case word, in any case, exactly if its lower case begins with it. */
  lemma BeginsIff(word: string, s: string)
    requires Lower(word) == word
    ensures word <= Lower(s) <==> |word| <= |s| && SameUpToCase(s[..|word|], word)
  {
    hide Lower, SameUpToCase;
    if |word| <= |s| {
      assert word <= Lower(s) <==> Lower(s)[..|word|] == word;
      LowerPrefix(s, |word|);
      LowerSameIff(s[..|word|], word);
    }
  }
}
