/** The glob matcher of the bundled web server. */
module Glob {
  import opened Bytes

  const NUL: byte := 0
  const DOLLAR: byte := 36
  const STAR: byte := 42
  const SLASH: byte := 47
  const QUESTION: byte := 63
  const BAR: byte := 124

  function Lower(c: byte): byte {
    if 65 <= c <= 90 then c + 32 else c
  }

  /** str[j], where the string ends in a NUL. */
  function At(s: Bytes, j: nat): byte {
    if j < |s| then s[j] else NUL
  }

  // ----- What a pattern means -----

  /** The pattern after a leading * or **. */
  ghost function AfterStars(p: Bytes): (r: Bytes)
    requires p != []
    ensures |r| < |p|
  {
    if |p| > 1 && p[1] == STAR then p[2..] else p[1..]
  }

  /** ** may take any bytes, * any but slashes. */
  ghost predicate MayTake(p: Bytes, taken: Bytes)
    requires p != []
  {
    (|p| > 1 && p[1] == STAR) || SLASH !in taken
  }

  /**
   * The first n bytes of s match p, which has no alternatives: $ stands for the end of the string and of the
   * pattern.
   */
  ghost predicate Matches(p: Bytes, s: Bytes, n: nat)
    decreases |p|
  {
    if p == [] then n == 0
    else if p[0] == DOLLAR then s == [] && n == 0
    else if p[0] == STAR then
      exists k | 0 <= k <= n :: k <= |s| && MayTake(p, s[..k]) && Matches(AfterStars(p), s[k..], n - k)
    else
      n > 0 && s != [] && (p[0] == QUESTION || Lower(p[0]) == Lower(s[0])) && Matches(p[1..], s[1..], n - 1)
  }

  lemma {:induction false} MatchesWithin(p: Bytes, s: Bytes, n: nat)
    requires Matches(p, s, n)
    ensures n <= |s|
    decreases |p|
  {
    hide MayTake, AfterStars;
    if p == [] || p[0] == DOLLAR {
    } else if p[0] == STAR {
      var k :| 0 <= k <= n && k <= |s| && MayTake(p, s[..k]) && Matches(AfterStars(p), s[k..], n - k);
      MatchesWithin(AfterStars(p), s[k..], n - k);
    } else {
      MatchesWithin(p[1..], s[1..], n - 1);
    }
  }

  /** The position of the first bar. */
  ghost function Bar(p: Bytes): (at: nat)
    requires BAR in p
    ensures at < |p| && p[at] == BAR && BAR !in p[..at] && forall k :: 0 <= k < at ==> p[k] != BAR
  {
    if p[0] == BAR then 0 else 1 + Bar(p[1..])
  }

  /** What the alternatives of p are. */
  ghost function Alternatives(p: Bytes): (ps: seq<Bytes>)
    ensures |ps| > 0 && forall q <- ps :: BAR !in q
    decreases |p|
  {
    if BAR in p then [p[..Bar(p)]] + Alternatives(p[Bar(p) + 1..]) else [p]
  }

  // ----- Which match is found -----

  /** Stretches longer than len lead nowhere. */
  ghost predicate Exhausted(p: Bytes, s: Bytes, len: nat)
    requires p != []
  {
    forall k, n: nat :: len < k <= |s| && MayTake(p, s[..k]) ==> !Matches(AfterStars(p), s[k..], n)
  }

  /** The match in which every star, from the first on, takes the longest stretch that lets the rest match. */
  ghost predicate Picks(p: Bytes, s: Bytes, n: nat)
    decreases |p|
  {
    if p == [] then n == 0
    else if p[0] == DOLLAR then s == [] && n == 0
    else if p[0] == STAR then
      exists k | 0 <= k <= n ::
        k <= |s| && MayTake(p, s[..k]) && Exhausted(p, s, k) && Picks(AfterStars(p), s[k..], n - k)
    else
      n > 0 && s != [] && (p[0] == QUESTION || Lower(p[0]) == Lower(s[0])) && Picks(p[1..], s[1..], n - 1)
  }

  lemma StarTakes(p: Bytes, s: Bytes, n: nat) returns (k: nat)
    requires p != [] && p[0] == STAR && Matches(p, s, n)
    ensures k <= n && k <= |s| && MayTake(p, s[..k]) && Matches(AfterStars(p), s[k..], n - k)
  {
    hide MayTake, AfterStars;
    k :| 0 <= k <= n && k <= |s| && MayTake(p, s[..k]) && Matches(AfterStars(p), s[k..], n - k);
  }

  lemma StarPicks(p: Bytes, s: Bytes, n: nat) returns (k: nat)
    requires p != [] && p[0] == STAR && Picks(p, s, n)
    ensures k <= n && k <= |s| && MayTake(p, s[..k]) && Exhausted(p, s, k) && Picks(AfterStars(p), s[k..], n - k)
  {
    hide MayTake, AfterStars, Exhausted;
    k :| 0 <= k <= n && k <= |s| && MayTake(p, s[..k]) && Exhausted(p, s, k) && Picks(AfterStars(p), s[k..], n - k);
  }

  lemma {:induction false} PicksMatch(p: Bytes, s: Bytes, n: nat)
    requires Picks(p, s, n)
    ensures Matches(p, s, n)
    decreases |p|
  {
    hide MayTake, AfterStars, Exhausted;
    if p == [] || p[0] == DOLLAR {
    } else if p[0] == STAR {
      var k := StarPicks(p, s, n);
      PicksMatch(AfterStars(p), s[k..], n - k);
    } else {
      PicksMatch(p[1..], s[1..], n - 1);
    }
  }

  lemma SameStretch(p: Bytes, s: Bytes, k: nat, l: nat, n: nat, m: nat)
    requires p != [] && k <= |s| && MayTake(p, s[..k]) && Exhausted(p, s, k) && Matches(AfterStars(p), s[k..], n)
    requires l <= |s| && MayTake(p, s[..l]) && Exhausted(p, s, l) && Matches(AfterStars(p), s[l..], m)
    ensures k == l
  {
    hide MayTake, AfterStars, Matches;
  }

  /** There is only one such match. */
  lemma {:induction false} PicksOne(p: Bytes, s: Bytes, n: nat, m: nat)
    requires Picks(p, s, n) && Picks(p, s, m)
    ensures n == m
    decreases |p|
  {
    hide MayTake, AfterStars, Matches, Exhausted;
    if p == [] || p[0] == DOLLAR {
    } else if p[0] == STAR {
      var rest := AfterStars(p);
      var k := StarPicks(p, s, n);
      var l := StarPicks(p, s, m);
      PicksMatch(rest, s[k..], n - k);
      PicksMatch(rest, s[l..], m - l);
      SameStretch(p, s, k, l, n - k, m - l);
      PicksOne(rest, s[k..], n - k, m - k);
    } else {
      PicksOne(p[1..], s[1..], n - 1, m - 1);
    }
  }

  /** The empty match is picked only if there is no other. */
  lemma {:induction false} EmptyPickIsLast(p: Bytes, s: Bytes, n: nat)
    requires Picks(p, s, 0) && Matches(p, s, n)
    ensures n == 0
    decreases |p|
  {
    hide MayTake, AfterStars;
    if p != [] && p[0] == STAR {
      assert s[0..] == s;
      var k := StarTakes(p, s, n);
      assert k == 0;
      EmptyPickIsLast(AfterStars(p), s, n);
    }
  }

  /** A star at the end of the pattern, after characters only, makes it the longest match of all. */
  lemma {:induction false} LastStarIsLongest(p: Bytes, s: Bytes, n: nat, m: nat)
    requires Picks(p, s, n) && Matches(p, s, m)
    requires p != [] && (forall i :: 0 <= i < |p| - 2 ==> p[i] != STAR)
        && (|p| > 1 && p[|p| - 2] == STAR ==> p[|p| - 1] == STAR)
    ensures m <= n
    decreases |p|
  {
    hide MayTake;
    if p[0] == DOLLAR {
    } else if p[0] == STAR {
      assert AfterStars(p) == [];
      var k := StarPicks(p, s, n);
      var l := StarTakes(p, s, m);
      assert l <= k;
    } else if |p| > 1 {
      LastStarIsLongest(p[1..], s[1..], n - 1, m - 1);
    }
  }

  // ----- The matcher -----

  /** r is the length of the match that is picked, and -1 if and only if there is none. */
  ghost predicate Answers(p: Bytes, s: Bytes, r: int) {
    && r >= -1
    && (r >= 0 ==> Picks(p, s, r))
    && (r == -1 ==> forall n: nat :: !Matches(p, s, n))
  }

  /** So pattern and string determine the answer. */
  lemma AnswerIsUnique(p: Bytes, s: Bytes, r: int, r': int)
    requires Answers(p, s, r) && Answers(p, s, r')
    ensures r == r'
  {
    hide Matches, Picks;
    if r >= 0 {
      PicksMatch(p, s, r);
    }
    if r' >= 0 {
      PicksMatch(p, s, r');
    }
    if r >= 0 && r' >= 0 {
      PicksOne(p, s, r, r');
    }
  }

  /** strcspn(s, "/"). */
  method Span(s: Bytes) returns (n: nat)
    ensures n <= |s| && SLASH !in s[..n] && (n < |s| ==> s[n] == SLASH)
  {
    n := 0;
    while n < |s| && s[n] != SLASH
      invariant n <= |s| && SLASH !in s[..n]
    {
      n := n + 1;
    }
  }

  /** The first j characters of pattern and string have been matched off against each other. */
  ghost predicate Advanced(p: Bytes, s: Bytes, j: nat) {
    && j <= |p| && j <= |s|
    && (forall n: nat :: Matches(p, s, n) <==> n >= j && Matches(p[j..], s[j..], n - j))
    && (forall n: nat :: Picks(p, s, n) <==> n >= j && Picks(p[j..], s[j..], n - j))
  }

  lemma Start(p: Bytes, s: Bytes)
    ensures Advanced(p, s, 0)
  {
    assert p[0..] == p && s[0..] == s;
  }

  lemma Advance(p: Bytes, s: Bytes, j: nat)
    requires Advanced(p, s, j) && j < |p| && j < |s| && p[j] !in [DOLLAR, STAR]
    requires p[j] == QUESTION || Lower(p[j]) == Lower(s[j])
    ensures Advanced(p, s, j + 1)
  {
    assert p[j..][1..] == p[j + 1..] && s[j..][1..] == s[j + 1..];
    forall n: nat
      ensures Matches(p[j..], s[j..], n) <==> n >= 1 && Matches(p[j + 1..], s[j + 1..], n - 1)
      ensures Picks(p[j..], s[j..], n) <==> n >= 1 && Picks(p[j + 1..], s[j + 1..], n - 1)
    {
    }
  }

  lemma AnswersFrom(p: Bytes, s: Bytes, j: nat, r: int)
    requires Advanced(p, s, j) && Answers(p[j..], s[j..], r)
    ensures Answers(p, s, if r == -1 then -1 else j + r)
  {
    hide Matches, Picks;
  }

  lemma NoAnswer(p: Bytes, s: Bytes)
    requires p != [] && p[0] !in [DOLLAR, STAR]
    requires s == [] || (p[0] != QUESTION && Lower(p[0]) != Lower(s[0]))
    ensures Answers(p, s, -1)
  {
  }

  lemma PlainAnswers(p: Bytes, s: Bytes)
    ensures p == [] ==> Answers(p, s, 0)
    ensures p != [] && p[0] == DOLLAR ==> Answers(p, s, if s == [] then 0 else -1)
  {
  }

  /** A pattern without alternatives. */
  method MatchOne(pattern: Bytes, str: Bytes) returns (r: int)
    requires NUL !in pattern && NUL !in str && BAR !in pattern
    ensures Answers(pattern, str, r)
    decreases |pattern|, 1
  {
    hide Matches, Picks, Answers, Advanced;
    var i, j := 0, 0;
    Start(pattern, str);
    while i < |pattern|
      invariant i == j <= |pattern| && j <= |str| && Advanced(pattern, str, j)
    {
      ghost var p, s := pattern[j..], str[j..];
      if pattern[i] == QUESTION && At(str, j) != NUL {
      } else if pattern[i] == DOLLAR {
        PlainAnswers(p, s);
        AnswersFrom(pattern, str, j, if s == [] then 0 else -1);
        return if At(str, j) == NUL then j else -1;
      } else if pattern[i] == STAR {
        r := MatchStar(pattern[i..], str[j..]);
        AnswersFrom(pattern, str, j, r);
        return if r == -1 then -1 else j + r;
      } else if Lower(pattern[i]) != Lower(At(str, j)) {
        NoAnswer(p, s);
        AnswersFrom(pattern, str, j, -1);
        return -1;
      }
      Advance(pattern, str, j);
      i, j := i + 1, j + 1;
    }
    PlainAnswers(pattern[j..], str[j..]);
    AnswersFrom(pattern, str, j, 0);
    return j;
  }

  lemma StarAnswers(p: Bytes, s: Bytes, len: nat, res: int)
    requires p != [] && p[0] == STAR && len <= |s| && MayTake(p, s[..len]) && Exhausted(p, s, len)
    requires Answers(AfterStars(p), s[len..], res) && (res == -1 ==> len == 0)
    ensures Answers(p, s, if res == -1 then -1 else res + len)
  {
    hide MayTake, AfterStars, Matches;
    var rest := AfterStars(p);
    if res >= 0 {
      assert Picks(rest, s[len..], len + res - len);
    }
    forall n: nat | Matches(p, s, n)
      ensures res >= 0
    {
      var k := StarTakes(p, s, n);
    }
  }

  /** The longest stretch the stars may take is tried first, then shorter ones. */
  method MatchStar(pattern: Bytes, str: Bytes) returns (r: int)
    requires NUL !in pattern && NUL !in str && BAR !in pattern
    requires pattern != [] && pattern[0] == STAR
    ensures Answers(pattern, str, r)
    decreases |pattern|, 0
  {
    hide Matches, Picks, Answers;
    var i := 1;
    var len;
    if i < |pattern| && pattern[i] == STAR {
      i := i + 1;
      len := |str|;
    } else {
      len := Span(str);
    }
    ghost var rest := AfterStars(pattern);
    assert rest == pattern[i..];
    assert forall k :: len < k <= |str| ==> !MayTake(pattern, str[..k]) by {
      assert forall k :: len < k <= |str| ==> str[..k][len] == str[len];
    }
    if i == |pattern| {
      PlainAnswers(rest, str[len..]);
      StarAnswers(pattern, str, len, 0);
      return len;
    }
    var res := MatchOne(pattern[i..], str[len..]);
    while res == -1 && len > 0
      invariant 0 <= len <= |str| && MayTake(pattern, str[..len]) && Answers(rest, str[len..], res)
      invariant Exhausted(pattern, str, len)
    {
      Shorter(pattern, str, len);
      len := len - 1;
      res := MatchOne(pattern[i..], str[len..]);
    }
    StarAnswers(pattern, str, len, res);
    return if res == -1 then -1 else res + len;
  }

  lemma Shorter(p: Bytes, s: Bytes, len: nat)
    requires p != [] && 0 < len <= |s| && MayTake(p, s[..len]) && Exhausted(p, s, len)
    requires Answers(AfterStars(p), s[len..], -1)
    ensures MayTake(p, s[..len - 1]) && Exhausted(p, s, len - 1)
  {
    hide Matches;
    assert s[..len - 1] == s[..len][..len - 1];
  }

  /** memchr(s, '|', |s|), as a position; |s| when there is none. */
  method FindBar(s: Bytes) returns (at: nat)
    ensures at <= |s| && BAR !in s[..at] && (at < |s| ==> s[at] == BAR) && forall k :: 0 <= k < at ==> s[k] != BAR
  {
    at := 0;
    while at < |s| && s[at] != BAR
      invariant at <= |s| && BAR !in s[..at] && forall k :: 0 <= k < at ==> s[k] != BAR
    {
      at := at + 1;
    }
  }

  /** Nothing but the empty prefix matches. */
  ghost predicate AtMostEmpty(p: Bytes, s: Bytes) {
    forall n: nat :: n > 0 ==> !Matches(p, s, n)
  }

  /** The first alternative that matches more than nothing decides, and if there is none, the last alternative. */
  ghost predicate AnswersAlternatives(ps: seq<Bytes>, s: Bytes, r: int)
    requires |ps| > 0
  {
    && r >= -1
    && (if r > 0 then exists a | 0 <= a < |ps| :: Picks(ps[a], s, r) && forall b :: 0 <= b < a ==> AtMostEmpty(ps[b], s)
        else (forall b :: 0 <= b < |ps| ==> AtMostEmpty(ps[b], s)) && (r == 0 <==> Matches(ps[|ps| - 1], s, 0)))
  }

  /** So they, too, determine the answer. */
  lemma AlternativesAnswerIsUnique(ps: seq<Bytes>, s: Bytes, r: int, r': int)
    requires |ps| > 0 && AnswersAlternatives(ps, s, r) && AnswersAlternatives(ps, s, r')
    ensures r == r'
  {
    hide Matches, Picks;
    if r > 0 {
      var a := DecidingAlternative(ps, s, r);
      if r' > 0 {
        var a' := DecidingAlternative(ps, s, r');
        PicksOne(ps[a], s, r, r');
      }
    } else if r' > 0 {
      var a' := DecidingAlternative(ps, s, r');
    }
  }

  lemma DecidingAlternative(ps: seq<Bytes>, s: Bytes, r: int) returns (a: nat)
    requires |ps| > 0 && AnswersAlternatives(ps, s, r) && r > 0
    ensures a < |ps| && Picks(ps[a], s, r) && Matches(ps[a], s, r) && forall b :: 0 <= b < a ==> AtMostEmpty(ps[b], s)
  {
    hide Matches, Picks;
    a :| 0 <= a < |ps| && Picks(ps[a], s, r) && forall b :: 0 <= b < a ==> AtMostEmpty(ps[b], s);
    PicksMatch(ps[a], s, r);
  }

  /** The first alternative that matches more than nothing decides, and otherwise the last one. */
  method MgMatchPrefix(pattern: Bytes, str: Bytes) returns (r: int)
    requires NUL !in pattern && NUL !in str
    ensures AnswersAlternatives(Alternatives(pattern), str, r)
    decreases |pattern|
  {
    hide Matches;
    var bar := FindBar(pattern);
    if bar < |pattern| {
      BarIs(pattern, bar);
      var first := MatchOne(pattern[..bar], str);
      if first > 0 {
        r := first;
      } else {
        r := MgMatchPrefix(pattern[bar + 1..], str);
      }
      TakeOrLeave(pattern[..bar], Alternatives(pattern[bar + 1..]), str, first, r);
    } else {
      assert pattern[..bar] == pattern;
      r := MatchOne(pattern, str);
      Only(pattern, str, r);
    }
  }

  lemma BarIs(p: Bytes, at: nat)
    requires at < |p| && p[at] == BAR && forall k :: 0 <= k < at ==> p[k] != BAR
    ensures BAR in p && Bar(p) == at
  {
    hide Bar;
  }

  lemma TakeOrLeave(q: Bytes, ps: seq<Bytes>, s: Bytes, first: int, r: int)
    requires |ps| > 0 && Answers(q, s, first)
    requires if first > 0 then r == first else AnswersAlternatives(ps, s, r)
    ensures AnswersAlternatives([q] + ps, s, r)
  {
    hide Matches, Picks;
    var all := [q] + ps;
    if first > 0 {
      assert Picks(all[0], s, r);
    } else {
      NotLonger(q, s, first);
      if r > 0 {
        var a :| 0 <= a < |ps| && Picks(ps[a], s, r) && forall b :: 0 <= b < a ==> AtMostEmpty(ps[b], s);
        assert Picks(all[a + 1], s, r) && forall b :: 0 <= b < a + 1 ==> AtMostEmpty(all[b], s);
      }
    }
  }

  lemma NotLonger(p: Bytes, s: Bytes, r: int)
    requires Answers(p, s, r) && r <= 0
    ensures AtMostEmpty(p, s) && (r == 0 <==> Matches(p, s, 0))
  {
    hide Matches, Picks;
    if r == 0 {
      PicksMatch(p, s, 0);
    }
    forall n: nat | Matches(p, s, n)
      ensures n == 0
    {
      EmptyPickIsLast(p, s, n);
    }
  }

  lemma Only(p: Bytes, s: Bytes, r: int)
    requires Answers(p, s, r)
    ensures AnswersAlternatives([p], s, r)
  {
    hide Matches, Picks;
    if r > 0 {
      assert Picks([p][0], s, r);
    } else {
      NotLonger(p, s, r);
    }
  }

  // ----- Alternatives as their reader expects them -----

  ghost predicate SomeAlternative(ps: seq<Bytes>, s: Bytes, n: nat) {
    exists a | 0 <= a < |ps| :: Matches(ps[a], s, n)
  }

  /**
   * "*|b" does not match the empty string although "*" does: an empty match of any but the last alternative is
   * lost.
   */
  lemma EmptyMatchIsLost(r: int)
    requires AnswersAlternatives(Alternatives([STAR, BAR, 98]), [], r)
    ensures r == -1 && SomeAlternative(Alternatives([STAR, BAR, 98]), [], 0)
  {
    var p: Bytes := [STAR, BAR, 98];
    BarIs(p, 1);
    var one, two: Bytes := [STAR], [98];
    assert p[..1] == one && p[2..] == two;
    assert Alternatives(two) == [two];
    var ps := Alternatives(p);
    assert ps == [one] + [two];
    assert Matches(AfterStars(ps[0]), [][0..], 0 - 0) && MayTake(ps[0], [][..0]);
    assert Matches(ps[0], [], 0);
    assert !Matches(ps[1], [], 0);
    if r > 0 {
      NothingOfNothing(ps, r);
    }
  }

  lemma NothingOfNothing(ps: seq<Bytes>, n: nat)
    requires |ps| > 0 && AnswersAlternatives(ps, [], n)
    ensures n == 0
  {
    hide Matches, Picks;
    if n > 0 {
      var a := DecidingAlternative(ps, [], n);
      MatchesWithin(ps[a], [], n);
    }
  }

  /**
   * The matcher finds a match exactly when some alternative has one, unless the only matches are empty
   * ones and the last alternative does not have one.
   */
  lemma AlternativesIff(ps: seq<Bytes>, s: Bytes, r: int)
    requires |ps| > 0 && AnswersAlternatives(ps, s, r)
    ensures (r >= 0 <==> exists n: nat :: SomeAlternative(ps, s, n))
       <==> (|| Matches(ps[|ps| - 1], s, 0) || !SomeAlternative(ps, s, 0)
             || exists n: nat :: n > 0 && SomeAlternative(ps, s, n))
  {
    hide Matches, Picks;
    if r > 0 {
      var a := DecidingAlternative(ps, s, r);
      assert SomeAlternative(ps, s, r);
    } else {
      assert forall n: nat :: n > 0 ==> !SomeAlternative(ps, s, n);
      assert r == 0 ==> SomeAlternative(ps, s, 0);
    }
  }

  // ----- Letters -----

  /** A character that has no meaning of its own matches itself, and a letter in either case. */
  lemma LetterMatches(a: byte, b: byte)
    requires a !in [DOLLAR, STAR, QUESTION]
    ensures Matches([a], [b], 1) <==>
              a == b || (65 <= a <= 90 && b == a + 32) || (65 <= b <= 90 && a == b + 32)
  {
    assert [a][1..] == [] && [b][1..] == [];
  }
}
