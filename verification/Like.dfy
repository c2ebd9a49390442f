/** The SQL LIKE comparison by which RemoveByPrefix deletes rows (cache/cache.go:346-361). In
    SQLite it ignores the case of ASCII letters, and the prefix is not escaped. */
module Like {
  import opened Text

  /** `%` stands for any text, `_` for any character. */
  predicate Like(pattern: string, s: string)
    decreases |pattern|, |s|
  {
    if pattern == "" then s == ""
    else if pattern[0] == '%' then Like(pattern[1..], s) || (s != "" && Like(pattern, s[1..]))
    else s != "" && (pattern[0] == '_' || LowerChar(pattern[0]) == LowerChar(s[0])) && Like(pattern[1..], s[1..])
  }

  /** The rows that the statement deletes. */
  predicate Swept(prefix: string, key: string) {
    Like(prefix + "%", key)
  }

  predicate IsPlain(c: char) {
    c != '%' && c != '_' && !('a' <= c <= 'z') && !('A' <= c <= 'Z')
  }

  predicate Plain(s: string) {
    forall i :: 0 <= i < |s| ==> IsPlain(s[i])
  }

  /** Every text matches itself as a pattern. */
  lemma {:induction false} MatchesItself(p: string, q: string, s: string)
    requires Like(q, s)
    ensures Like(p + q, p + s)
    decreases |p|
  {
    if p == "" {
      assert p + q == q && p + s == s;
    } else {
      MatchesItself(p[1..], q, s);
      assert (p + q)[1..] == p[1..] + q && (p + s)[1..] == p[1..] + s;
      if p[0] == '%' {
        ExtraCharacter(p[1..] + q, p[1..] + s, p[0]);
        assert [p[0]] + (p[1..] + q) == p + q && [p[0]] + (p[1..] + s) == p + s;
      }
    }
  }

  lemma ExtraCharacter(q: string, s: string, c: char)
    requires Like(q, s)
    ensures Like("%" + q, [c] + s) && Like("%" + q, s)
  {
    assert ("%" + q)[1..] == q && ([c] + s)[1..] == s;
    assert Like("%" + q, s);
  }

  lemma PercentMatches(s: string)
    ensures Like("%", s)
  {
    assert "%"[1..] == "";
    if s != "" { PercentMatches(s[1..]); }
  }

  /** No row below the prefix survives. */
  lemma PrefixIsSwept(prefix: string, key: string)
    requires prefix <= key
    ensures Swept(prefix, key)
  {
    PercentMatches(key[|prefix|..]);
    MatchesItself(prefix, "%", key[|prefix|..]);
    assert key == prefix + key[|prefix|..];
  }

  lemma {:induction false} PlainSweepsPrefixOnly(prefix: string, key: string)
    requires Plain(prefix) && Swept(prefix, key)
    ensures prefix <= key
    decreases |prefix|
  {
    if prefix != "" {
      assert IsPlain(prefix[0]);
      assert (prefix + "%")[1..] == prefix[1..] + "%" && (prefix + "%")[0] == prefix[0];
      assert forall i :: 0 <= i < |prefix[1..]| ==> prefix[1..][i] == prefix[i + 1];
      PlainSweepsPrefixOnly(prefix[1..], key[1..]);
      assert key[0] == prefix[0];
      assert prefix == [prefix[0]] + prefix[1..] && key == [key[0]] + key[1..];
    }
  }

  /** The key agrees with the prefix as far as that reaches, `_` standing for any character. */
  predicate Agrees(prefix: string, key: string) {
    |prefix| <= |key| && forall i :: 0 <= i < |prefix| ==> prefix[i] == '_' || LowerChar(prefix[i]) == LowerChar(key[i])
  }

  lemma AgreesStep(prefix: string, key: string)
    requires prefix != "" && key != ""
    ensures Agrees(prefix, key) <==>
            (prefix[0] == '_' || LowerChar(prefix[0]) == LowerChar(key[0])) && Agrees(prefix[1..], key[1..])
  {
    var p, k := prefix[1..], key[1..];
    if Agrees(p, k) {
      forall i | 1 <= i < |prefix| ensures prefix[i] == '_' || LowerChar(prefix[i]) == LowerChar(key[i]) {
        assert p[i - 1] == prefix[i] && k[i - 1] == key[i];
      }
    }
  }

  /** Exactly which rows go, for any prefix without `%`, such as the "refs:" and "lsrefs:" ones: the
      keys that agree with it up to ASCII case, with `_` for any character. */
  lemma {:induction false} SweptIff(prefix: string, key: string)
    requires '%' !in prefix
    ensures Swept(prefix, key) <==> Agrees(prefix, key)
    decreases |prefix|
  {
    if prefix == "" {
      PercentMatches(key);
      assert prefix + "%" == "%";
    } else if key != "" {
      assert prefix[0] in prefix;
      assert (prefix + "%")[1..] == prefix[1..] + "%" && (prefix + "%")[0] == prefix[0];
      SweptIff(prefix[1..], key[1..]);
      AgreesStep(prefix, key);
    }
  }

  /** A key that is swept without having the prefix, built from the position of a letter or wild
      card in the prefix. */
  function Bystander(prefix: string, i: nat): string
    requires i < |prefix|
  {
    var c := prefix[i];
    if c == '%' then prefix[..i] + prefix[i + 1..]
    else
      var other := if c == '_' then 'x' else if 'a' <= c <= 'z' then (c - 'a') + 'A' else LowerChar(c);
      prefix[..i] + [other] + prefix[i + 1..]
  }

  lemma BystanderIsSwept(prefix: string, i: nat)
    requires i < |prefix| && !IsPlain(prefix[i])
    ensures Swept(prefix, Bystander(prefix, i)) && !(prefix <= Bystander(prefix, i))
  {
    var front, c, back := prefix[..i], prefix[i], prefix[i + 1..];
    var key := Bystander(prefix, i);
    PrefixIsSwept(back, back);
    var rest := [c] + (back + "%");
    assert prefix + "%" == front + rest;
    if c == '%' {
      ExtraCharacter(back + "%", back, 'x');
      assert "%" + (back + "%") == rest;
      MatchesItself(front, rest, back);
      assert |key| < |prefix|;
    } else {
      var d := key[i];
      assert key == front + ([d] + back);
      assert rest[1..] == back + "%" && ([d] + back)[1..] == back;
      assert Like(rest, [d] + back);
      MatchesItself(front, rest, [d] + back);
      assert key[i] != prefix[i];
    }
  }

  /** The statement sweeps the keys below the prefix and no others, whatever keys there are,
      exactly when the prefix holds no letter and no wild card. */
  lemma SweepsExactlyThePrefixIff(prefix: string)
    ensures (forall key :: Swept(prefix, key) <==> prefix <= key) <==> Plain(prefix)
  {
    if Plain(prefix) {
      forall key ensures Swept(prefix, key) <==> prefix <= key {
        if prefix <= key { PrefixIsSwept(prefix, key); }
        if Swept(prefix, key) { PlainSweepsPrefixOnly(prefix, key); }
      }
    } else {
      var i :| 0 <= i < |prefix| && !IsPlain(prefix[i]);
      BystanderIsSwept(prefix, i);
    }
  }
}
