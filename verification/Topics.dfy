/**
 Topic filters. The client decides with one scan over characters whether a topic name matches a
 filter; the protocol defines matching level by level (section 4.7 of MQTT 3.1.1).
 */
module Topics {
  import opened Bytes

  const SLASH: byte := 47
  const PLUS: byte := 43
  const HASH: byte := 35
  const DOLLAR: byte := 36

  /** The part of `s` before the first separator, and the rest from that separator on. */
  function FirstLevel(s: bytes): bytes {
    if s == [] || s[0] == SLASH then [] else [s[0]] + FirstLevel(s[1..])
  }

  function SkipLevel(s: bytes): (r: bytes)
    ensures |r| <= |s| && (r != [] ==> r[0] == SLASH)
  {
    if s == [] || s[0] == SLASH then s else SkipLevel(s[1..])
  }

  /** The levels of a filter or name, empty ones included. */
  function Levels(s: bytes): (r: seq<bytes>)
    ensures r != []
    decreases |s|
  {
    if SkipLevel(s) == [] then [s] else [FirstLevel(s)] + Levels(SkipLevel(s)[1..])
  }

  /** A filter in the correct format: wildcards fill whole levels, and '#' only the last one. */
  predicate WellFormed(f: seq<bytes>) {
    forall i :: 0 <= i < |f| ==>
      || f[i] == [PLUS]
      || (f[i] == [HASH] && i == |f| - 1)
      || (PLUS !in f[i] && HASH !in f[i])
  }

  /** Matching as the client does it, level by level: '+' takes one level that is not empty, and
      '#' one or more levels of which the first is not empty. */
  predicate MatchLevels(f: seq<bytes>, n: seq<bytes>) {
    if f == [] || n == [] then f == [] && n == []
    else if f[0] == [HASH] then n[0] != []
    else if f[0] == [PLUS] then n[0] != [] && MatchLevels(f[1..], n[1..])
    else f[0] == n[0] && MatchLevels(f[1..], n[1..])
  }

  /** Matching as sections 4.7.1.2 and 4.7.1.3 define it: '+' takes any one level, and '#' the
      parent level and any number of child levels. */
  predicate MatchStandard(f: seq<bytes>, n: seq<bytes>) {
    if f == [[HASH]] then true
    else if f == [] || n == [] then f == [] && n == []
    else (f[0] == [PLUS] || f[0] == n[0]) && MatchStandard(f[1..], n[1..])
  }

  /** The scan, as a function of what is left of the filter and of the name. */
  predicate Scan(f: bytes, n: bytes)
    decreases |f|
  {
    if f == [] || n == [] then f == [] && n == []
    else if n[0] == SLASH && f[0] != SLASH then false
    else if f[0] == PLUS then Scan(f[1..], SkipLevel(n[1..]))
    else if f[0] == HASH then Scan(f[1..], [])
    else f[0] == n[0] && Scan(f[1..], n[1..])
  }

  /** isTopicMatched, the loop with its two pointers. */
  method IsTopicMatched(filter: bytes, name: bytes) returns (matched: bool)
    ensures matched <==> Scan(filter, name)
  {
    var curf, curn := 0, 0;
    while curf < |filter| && curn < |name|
      invariant 0 <= curf <= |filter| && 0 <= curn <= |name|
      invariant Scan(filter[curf..], name[curn..]) <==> Scan(filter, name)
    {
      ghost var f, n := filter[curf..], name[curn..];
      if name[curn] == SLASH && filter[curf] != SLASH {
        break;
      }
      if filter[curf] != PLUS && filter[curf] != HASH && filter[curf] != name[curn] {
        break;
      }
      if filter[curf] == PLUS {
        var nextpos := curn + 1;
        while nextpos < |name| && name[nextpos] != SLASH
          invariant nextpos == curn + 1 <= |name|
          invariant SkipLevel(name[nextpos..]) == SkipLevel(n[1..])
        {
          assert name[nextpos..][1..] == name[nextpos + 1..];
          curn := curn + 1;
          nextpos := curn + 1;
        }
      } else if filter[curf] == HASH {
        curn := |name| - 1;
      }
      assert f[1..] == filter[curf + 1..];
      assert filter[curf] != PLUS && filter[curf] != HASH ==> n[1..] == name[curn + 1..];
      curf := curf + 1;
      curn := curn + 1;
    }
    matched := curn == |name| && curf == |filter|;
  }

  lemma {:induction false} LevelSplit(s: bytes)
    ensures s == FirstLevel(s) + SkipLevel(s) && SLASH !in FirstLevel(s)
  {
    if s != [] && s[0] != SLASH {
      LevelSplit(s[1..]);
    }
  }

  /** A level without wildcards is compared character by character. */
  lemma {:induction false} ScanLiteral(lit: bytes, rest: bytes, n: bytes)
    requires PLUS !in lit && HASH !in lit && SLASH !in lit
    requires rest != [] ==> rest[0] == SLASH
    ensures Scan(lit + rest, n) <==> FirstLevel(n) == lit && Scan(rest, SkipLevel(n))
    decreases |lit|
  {
    if lit == [] {
      assert lit + rest == rest;
    } else {
      assert (lit + rest)[1..] == lit[1..] + rest;
      assert lit == [lit[0]] + lit[1..];
      if n != [] && n[0] != SLASH {
        ScanLiteral(lit[1..], rest, n[1..]);
        assert FirstLevel(n)[0] == n[0] && FirstLevel(n)[1..] == FirstLevel(n[1..]);
      }
    }
  }

  /** The scan is the level-by-level matcher, for every well-formed filter and every name. */
  lemma {:induction false} ScanIsMatchLevels(filter: bytes, name: bytes)
    requires WellFormed(Levels(filter))
    ensures Scan(filter, name) <==> MatchLevels(Levels(filter), Levels(name))
    decreases |filter|
  {
    var f, n := Levels(filter), Levels(name);
    var lit, rest := FirstLevel(filter), SkipLevel(filter);
    LevelSplit(filter);
    LevelSplit(name);
    assert f[0] == lit && n[0] == FirstLevel(name);
    assert rest == [] ==> f[1..] == [];
    if rest != [] {
      assert f[1..] == Levels(rest[1..]);
      assert WellFormed(f[1..]) by {
        assert forall i :: 0 <= i < |f[1..]| ==> f[1..][i] == f[i + 1];
      }
    }
    assert SkipLevel(name) != [] ==> n[1..] == Levels(SkipLevel(name)[1..]);
    if rest != [] && SkipLevel(name) != [] {
      ScanIsMatchLevels(rest[1..], SkipLevel(name)[1..]);
    }
    assert Scan(rest, SkipLevel(name)) <==> MatchLevels(f[1..], n[1..]);
    if lit == [HASH] {
      assert f == [lit];
      assert filter == [HASH];
    } else if lit == [PLUS] {
      assert filter[1..] == rest;
      assert name != [] && name[0] != SLASH ==> SkipLevel(name) == SkipLevel(name[1..]);
    } else {
      assert PLUS !in f[0] && HASH !in f[0];
      ScanLiteral(lit, rest, name);
    }
  }

  /** Against the standard: what the client accepts is a standard match, for every name. */
  lemma {:induction false} MatchIsStandard(f: seq<bytes>, n: seq<bytes>)
    requires WellFormed(f) && MatchLevels(f, n)
    ensures MatchStandard(f, n) && |f| <= |n|
    decreases |f|
  {
    if f != [] && n != [] {
      if f[0] == [HASH] {
        assert f == [f[0]];
      } else {
        TailWellFormed(f);
        MatchIsStandard(f[1..], n[1..]);
      }
    }
  }

  lemma TailWellFormed(f: seq<bytes>)
    requires WellFormed(f) && f != []
    ensures WellFormed(f[1..])
    ensures f[0] == [HASH] ==> f == [[HASH]]
  {
    assert forall i :: 0 <= i < |f[1..]| ==> f[1..][i] == f[i + 1];
  }

  /** Against a wildcard, a level of the name is empty. */
  predicate EmptyAtWildcard(f: seq<bytes>, n: seq<bytes>) {
    exists i :: 0 <= i < |f| && i < |n| && (f[i] == [PLUS] || f[i] == [HASH]) && n[i] == []
  }

  /** And exactly when it falls short of the standard, for every name: when the filter has more levels
      than the name, which the standard matches when it is the name's own parent filter, "name/#",
      and when a wildcard meets an empty level. */
  lemma {:induction false} MatchExactly(f: seq<bytes>, n: seq<bytes>)
    requires WellFormed(f)
    ensures MatchLevels(f, n) <==> MatchStandard(f, n) && |f| <= |n| && !EmptyAtWildcard(f, n)
    decreases |f|
  {
    if f != [] {
      TailWellFormed(f);
      if n != [] {
        assert f[0] == [HASH] || f[0] == [PLUS] ==> n[0] == [] ==> EmptyAtWildcard(f, n);
        if f[0] != [HASH] {
          MatchExactly(f[1..], n[1..]);
          EmptyInTail(f, n);
        }
      }
    }
  }

  lemma EmptyInTail(f: seq<bytes>, n: seq<bytes>)
    requires f != [] && n != []
    ensures EmptyAtWildcard(f, n) <==>
            ((f[0] == [PLUS] || f[0] == [HASH]) && n[0] == []) || EmptyAtWildcard(f[1..], n[1..])
  {
    if EmptyAtWildcard(f, n) {
      var i :| 0 <= i < |f| && i < |n| && (f[i] == [PLUS] || f[i] == [HASH]) && n[i] == [];
      assert i > 0 ==> f[1..][i - 1] == f[i] && n[1..][i - 1] == n[i];
    }
    if EmptyAtWildcard(f[1..], n[1..]) {
      var i :| 0 <= i < |f[1..]| && i < |n[1..]| && (f[1..][i] == [PLUS] || f[1..][i] == [HASH]) && n[1..][i] == [];
      assert f[i + 1] == f[1..][i] && n[i + 1] == n[1..][i];
    }
  }

  /** The whole result for the method: every well-formed filter and every name. */
  lemma ScanExactly(filter: bytes, name: bytes)
    requires WellFormed(Levels(filter))
    ensures var f, n := Levels(filter), Levels(name);
            Scan(filter, name) <==> MatchStandard(f, n) && |f| <= |n| && !EmptyAtWildcard(f, n)
  {
    ScanIsMatchLevels(filter, name);
    MatchExactly(Levels(filter), Levels(name));
  }

  /** "a/+" is to match "a/", whose second level is empty; the client does not. */
  lemma EmptyLevelMissed()
    ensures MatchStandard(Levels([97, SLASH, PLUS]), Levels([97, SLASH])) && !Scan([97, SLASH, PLUS], [97, SLASH])
  {
    assert [97, SLASH, PLUS][1..] == [SLASH, PLUS] && [SLASH, PLUS][1..] == [PLUS] && [PLUS][1..] == [];
    assert [97, SLASH][1..] == [SLASH] && [SLASH][1..] == [];
    assert FirstLevel([SLASH, PLUS]) == [] && SkipLevel([SLASH, PLUS]) == [SLASH, PLUS];
    assert FirstLevel([SLASH]) == [] && SkipLevel([SLASH]) == [SLASH];
    assert FirstLevel([97, SLASH, PLUS]) == [97] && SkipLevel([97, SLASH, PLUS]) == [SLASH, PLUS];
    assert FirstLevel([97, SLASH]) == [97] && SkipLevel([97, SLASH]) == [SLASH];
    assert SkipLevel([PLUS]) == [] && Levels([PLUS]) == [[PLUS]] && Levels([]) == [[]];
    assert Levels([97, SLASH, PLUS]) == [[97], [PLUS]] && Levels([97, SLASH]) == [[97], []];
    assert [[97], [PLUS]][1..] == [[PLUS]] && [[97], []][1..] == [[]];
    var none: seq<bytes> := [[]];
    assert [[PLUS]][1..] == [] && none[1..] == [];
    assert [[PLUS]][0] != [HASH] && MatchStandard([[PLUS]], none);
    assert !Scan([PLUS], []) && !Scan([SLASH, PLUS], [SLASH]);
  }

  /** "a/#" is to match "a" by the standard; the client does not. */
  lemma ParentLevelMissed()
    ensures MatchStandard(Levels([97, SLASH, HASH]), Levels([97])) && !Scan([97, SLASH, HASH], [97])
  {
    assert [97, SLASH, HASH][1..] == [SLASH, HASH];
    assert [SLASH, HASH][1..] == [HASH];
    assert FirstLevel([SLASH, HASH]) == [] && SkipLevel([SLASH, HASH]) == [SLASH, HASH];
    assert FirstLevel([97, SLASH, HASH]) == [97] && SkipLevel([97, SLASH, HASH]) == [SLASH, HASH];
    assert [HASH][1..] == [] && SkipLevel([HASH]) == [];
    assert [97][1..] == [] && SkipLevel([97]) == [];
    assert Levels([HASH]) == [[HASH]] && Levels([97]) == [[97]];
    assert Levels([97, SLASH, HASH]) == [[97], [HASH]];
    assert [[97], [HASH]][1..] == [[HASH]];
  }

  /** A filter that starts with a wildcard and a name that starts with '$'. */
  predicate DollarAtWildcard(f: seq<bytes>, n: seq<bytes>) {
    f != [] && n != [] && (f[0] == [PLUS] || f[0] == [HASH]) && n[0] != [] && n[0][0] == DOLLAR
  }

  /** Matching by the whole of section 4.7: section 4.7.2 takes these pairs out. */
  predicate MatchFull(f: seq<bytes>, n: seq<bytes>) {
    MatchStandard(f, n) && !DollarAtWildcard(f, n)
  }

  /** The client does not implement that rule. Every well-formed filter and every name: it matches too
      much exactly on the pairs of the rule it accepts, and too little exactly where the filter has
      more levels than the name, or a wildcard meets an empty level. */
  lemma ScanAgainstFull(filter: bytes, name: bytes)
    requires WellFormed(Levels(filter))
    ensures var f, n := Levels(filter), Levels(name);
            && (Scan(filter, name) && !MatchFull(f, n) <==> Scan(filter, name) && DollarAtWildcard(f, n))
            && (MatchFull(f, n) && !Scan(filter, name) <==> MatchFull(f, n) && (|f| > |n| || EmptyAtWildcard(f, n)))
  {
    ScanExactly(filter, name);
  }

  /** "#" is not to match "$S"; with the client it does. */
  lemma DollarMatched()
    ensures Scan([HASH], [DOLLAR, 83]) && !MatchFull(Levels([HASH]), Levels([DOLLAR, 83]))
  {
    assert [HASH][1..] == [] && SkipLevel([HASH]) == [];
    assert [DOLLAR, 83][1..] == [83] && [83][1..] == [];
    assert SkipLevel([DOLLAR, 83]) == SkipLevel([83]) == SkipLevel([]) == [];
    assert Levels([HASH]) == [[HASH]] && Levels([DOLLAR, 83]) == [[DOLLAR, 83]];
  }

  /** The separator and the wildcards. */
  lemma TopicCharacters()
    ensures SLASH == 47 && PLUS == 43 && HASH == 35 && DOLLAR == 36
  {
  }

  /** Levels put together again. */
  function Together(levels: seq<bytes>): bytes
    requires levels != []
  {
    if |levels| == 1 then levels[0] else levels[0] + [47] + Together(levels[1..])
  }

  /** The levels of a text are the parts between its separators: they have none, and together they are the
      text. */
  lemma {:induction false} LevelsTogether(s: bytes)
    ensures Together(Levels(s)) == s
    ensures forall i :: 0 <= i < |Levels(s)| ==> 47 !in Levels(s)[i]
    decreases |s|
  {
    LevelSplit(s);
    var rest := SkipLevel(s);
    if rest != [] {
      LevelsTogether(rest[1..]);
      assert Levels(s)[1..] == Levels(rest[1..]);
      assert rest == [47] + rest[1..];
    }
  }

  /** And no other list of parts is. */
  lemma {:induction false} LevelsUnique(levels: seq<bytes>)
    requires levels != [] && forall i :: 0 <= i < |levels| ==> 47 !in levels[i]
    ensures Levels(Together(levels)) == levels
    decreases |levels|
  {
    if |levels| == 1 {
      LevelOf(levels[0], []);
      assert levels[0] + [] == levels[0];
    } else {
      var rest := [47] + Together(levels[1..]);
      LevelOf(levels[0], rest);
      assert Together(levels) == levels[0] + rest;
      assert rest[1..] == Together(levels[1..]);
      LevelsUnique(levels[1..]);
    }
  }

  lemma {:induction false} LevelOf(l: bytes, rest: bytes)
    requires 47 !in l && (rest != [] ==> rest[0] == 47)
    ensures FirstLevel(l + rest) == l && SkipLevel(l + rest) == rest
  {
    if l == [] {
      assert l + rest == rest;
    } else {
      assert (l + rest)[1..] == l[1..] + rest;
      LevelOf(l[1..], rest);
      assert l == [l[0]] + l[1..];
    }
  }

  /** The first `k` levels of a filter, none of which is "#", each take the level of the name at their place:
      "+" takes any, another one itself. */
  predicate Fit(f: seq<bytes>, n: seq<bytes>, k: nat) {
    k <= |f| && k <= |n| && forall i :: 0 <= i < k ==> f[i] == [43] || f[i] == n[i]
  }

  /** The standard's matching by places: a filter that ends with "#" matches the names whose first levels fit
      what is before the "#"; any other the names with as many levels that fit. */
  lemma {:induction false} StandardMeans(f: seq<bytes>, n: seq<bytes>)
    requires WellFormed(f) && f != []
    ensures MatchStandard(f, n) <==>
            if f[|f| - 1] == [35] then Fit(f, n, |f| - 1) else |n| == |f| && Fit(f, n, |f|)
    decreases |f|
  {
    TailWellFormed(f);
    if f[0] != [HASH] && n != [] {
      var t, m := f[1..], n[1..];
      if t == [] {
        assert MatchStandard(t, m) <==> m == [];
      } else {
        StandardMeans(t, m);
        assert t[|t| - 1] == f[|f| - 1];
        FitStep(f, n, |f| - 1);
        FitStep(f, n, |f|);
      }
    }
  }

  lemma FitStep(f: seq<bytes>, n: seq<bytes>, k: nat)
    requires f != [] && n != [] && k >= 1
    ensures Fit(f, n, k) <==> (f[0] == [43] || f[0] == n[0]) && Fit(f[1..], n[1..], k - 1)
  {
    assert forall i :: 0 <= i < |f[1..]| ==> f[1..][i] == f[i + 1];
    assert forall i :: 0 <= i < |n[1..]| ==> n[1..][i] == n[i + 1];
    if (f[0] == [43] || f[0] == n[0]) && Fit(f[1..], n[1..], k - 1) {
      forall i | 0 <= i < k ensures f[i] == [43] || f[i] == n[i] {
        if i > 0 {
          assert f[1..][i - 1] == f[i] && n[1..][i - 1] == n[i];
        }
      }
    }
  }
}
