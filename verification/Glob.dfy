/** SCAN/KEYS globs: the iterative last-star matcher against a textbook recursive one. */
module Glob {
  import opened Bytes

  const STAR: byte := 42     // '*'
  const QUESTION: byte := 63 // '?'
  const OPEN: byte := 91     // '['
  const CLOSE: byte := 93    // ']'
  const ESCAPE: byte := 92   // '\'
  const CARET: byte := 94    // '^'
  const DASH: byte := 45     // '-'

  /** One unit of a pattern. Every token but `Star` consumes exactly one byte. */
  datatype Token =
    | Star
    | Any
    | Class(body: Bytes, negate: bool)
    | Literal(b: byte)
    | Dead // a trailing backslash: matches nothing

  /** Is `ch` named by the class body from position `i` on (single bytes and `a-z` ranges)? */
  predicate InBody(body: Bytes, i: nat, ch: byte)
    decreases |body| - i
  {
    if i >= |body| then false
    else if body[i] == DASH && i > 0 && i + 1 < |body| then
      body[i - 1] <= ch <= body[i + 1] || InBody(body, i + 2, ch)
    else
      body[i] == ch || InBody(body, i + 1, ch)
  }

  /** Does the one-byte token `t` accept `ch`? */
  predicate Hits(t: Token, ch: byte) {
    match t
    case Star => false
    case Any => true
    case Class(body, negate) => InBody(body, 0, ch) != negate
    case Literal(b) => b == ch
    case Dead => false
  }

  /** The first token of a nonempty pattern and the number of pattern bytes it takes. */
  function FirstToken(q: Bytes): (r: (Token, nat))
    requires q != []
    ensures 0 < r.1 <= |q|
  {
    if q[0] == STAR then (Star, 1)
    else if q[0] == QUESTION then (Any, 1)
    else if q[0] == OPEN then
      var close := IndexFrom(q, CLOSE, 1);
      if close.None? then (Literal(OPEN), 1)
      else
        var body := q[1..close.value];
        var negate := body != [] && body[0] == CARET;
        (Class(if negate then body[1..] else body, negate), close.value + 1)
    else if q[0] == ESCAPE then
      if |q| >= 2 then (Literal(q[1]), 2) else (Dead, 1)
    else (Literal(q[0]), 1)
  }

  function Tokens(q: Bytes): (r: seq<Token>) {
    if q == [] then []
    else
      var (t, n) := FirstToken(q);
      [t] + Tokens(q[n..])
  }

  /** The reference matcher: token by token, a star trying every split. */
  predicate Matches(ts: seq<Token>, s: Bytes)
    decreases |ts|, |s|
  {
    if ts == [] then s == []
    else if ts[0].Star? then Matches(ts[1..], s) || (s != [] && Matches(ts, s[1..]))
    else s != [] && Hits(ts[0], s[0]) && Matches(ts[1..], s[1..])
  }

  ghost predicate MatchesFrom(pattern: Bytes, s: Bytes, p: nat, i: nat)
    requires p <= |pattern| && i <= |s|
  {
    Matches(Tokens(pattern[p..]), s[i..])
  }

  /** A leading star matches exactly when the rest matches some suffix. */
  lemma {:induction false} StarIsSomeSuffix(rest: seq<Token>, s: Bytes, i: nat)
    requires i <= |s|
    ensures Matches([Star] + rest, s[i..]) <==> exists k :: i <= k <= |s| && Matches(rest, s[k..])
    decreases |s| - i
  {
    var ts := [Star] + rest;
    assert ts[1..] == rest;
    if i < |s| {
      assert s[i..][1..] == s[i + 1..];
      StarIsSomeSuffix(rest, s, i + 1);
      assert Matches(ts, s[i..]) <==> Matches(rest, s[i..]) || Matches(ts, s[i + 1..]);
    }
  }

  /** Star-free tokens consume one byte each, wherever they start. */
  lemma {:induction false} FixedWidth(seg: seq<Token>, rest: seq<Token>, s: Bytes)
    requires forall t :: t in seg ==> !t.Star?
    requires Matches(seg + rest, s)
    ensures |seg| <= |s| && Matches(rest, s[|seg|..])
  {
    if seg == [] {
      assert seg + rest == rest && s[0..] == s;
    } else {
      assert (seg + rest)[1..] == seg[1..] + rest;
      assert (seg + rest)[0] == seg[0];
      FixedWidth(seg[1..], rest, s[1..]);
      assert s[1..][|seg[1..]|..] == s[|seg|..];
    }
  }

  /** Class test of the class that opens at `pattern[at]`: whether `ch` hits, and the index after ']'. */
  method ClassAt(pattern: Bytes, at: nat, ch: Option<byte>) returns (r: Option<(bool, nat)>)
    requires at < |pattern| && pattern[at] == OPEN
    ensures r.None? <==> CLOSE !in pattern[at + 1..]
    ensures r.Some? ==>
              var (t, n) := FirstToken(pattern[at..]);
              t.Class? && r.value.1 == at + n <= |pattern|
              && (ch.Some? ==> r.value.0 == Hits(t, ch.value))
              && (ch.None? ==> r.value.0 == t.negate)
  {
    var close := IndexFrom(pattern, CLOSE, at + 1);
    if close.None? {
      return None;
    }
    ClassSlice(pattern, at);
    var body := pattern[at + 1..close.value];
    var negate := body != [] && body[0] == CARET;
    if negate {
      body := body[1..];
    }
    var found := false;
    if ch.Some? {
      var i := 0;
      while i < |body|
        invariant found || InBody(body, i, ch.value) <==> InBody(body, 0, ch.value)
        decreases |body| - i
      {
        if body[i] == DASH && i > 0 && i + 1 < |body| {
          if body[i - 1] <= ch.value && ch.value <= body[i + 1] {
            found := true;
          }
          i := i + 2;
        } else {
          if body[i] == ch.value {
            found := true;
          }
          i := i + 1;
        }
      }
    }
    return Some((found != negate, close.value + 1));
  }

  /** The class token of a suffix lies where the whole pattern's first ']' after `at` is. */
  lemma ClassSlice(pattern: Bytes, at: nat)
    requires at < |pattern| && pattern[at] == OPEN
    ensures CLOSE !in pattern[at + 1..] <==> IndexFrom(pattern[at..], CLOSE, 1).None?
    ensures IndexFrom(pattern, CLOSE, at + 1).Some? ==>
              var close := IndexFrom(pattern, CLOSE, at + 1).value;
              IndexFrom(pattern[at..], CLOSE, 1) == Some(close - at)
              && pattern[at..][1..close - at] == pattern[at + 1..close]
  {
    var q := pattern[at..];
    assert q[1..] == pattern[at + 1..];
    var a, b := IndexFrom(pattern, CLOSE, at + 1), IndexFrom(q, CLOSE, 1);
    if a.Some? {
      assert q[a.value - at] == CLOSE && q[a.value - at] in q[1..];
      assert q[1..a.value - at] == pattern[at + 1..a.value];
      assert forall k :: 1 <= k < a.value - at ==> q[k] in q[1..a.value - at];
      assert forall k :: 1 <= k < b.value ==> q[k] in q[1..b.value];
    }
  }

  /** The token at `p`, and what the tokens from `p` on are. */
  lemma TokensAt(pattern: Bytes, p: nat)
    requires p < |pattern|
    ensures var (t, n) := FirstToken(pattern[p..]);
            p + n <= |pattern| && Tokens(pattern[p..]) == [t] + Tokens(pattern[p + n..])
  {
    hide FirstToken;
    var (t, n) := FirstToken(pattern[p..]);
    assert pattern[p..][n..] == pattern[p + n..];
  }

  /** Advancing over a one-byte token that accepts `s[i]` keeps the answer; one that does not, cannot match. */
  lemma StepToken(pattern: Bytes, s: Bytes, p: nat, i: nat)
    requires p < |pattern| && i <= |s|
    requires !FirstToken(pattern[p..]).0.Star?
    ensures var (t, n) := FirstToken(pattern[p..]);
            p + n <= |pattern|
            && (MatchesFrom(pattern, s, p, i) <==>
                i < |s| && Hits(t, s[i]) && MatchesFrom(pattern, s, p + n, i + 1))
  {
    hide Tokens, FirstToken, Hits;
    TokensAt(pattern, p);
    var (t, n) := FirstToken(pattern[p..]);
    var ts := Tokens(pattern[p..]);
    assert ts[1..] == Tokens(pattern[p + n..]);
    if i < |s| {
      assert s[i..][1..] == s[i + 1..];
    }
  }

  /** Can the pattern from `next` on match some suffix of `s` that starts at `lo` or later? */
  ghost predicate SomeSplit(pattern: Bytes, s: Bytes, next: nat, lo: nat)
    requires next <= |pattern|
  {
    exists k :: lo <= k <= |s| && MatchesFrom(pattern, s, next, k)
  }

  /** Can the star already on record still match by swallowing more than `eaten` bytes? */
  ghost predicate LaterSplit(pattern: Bytes, s: Bytes, star: Option<nat>, eaten: nat)
    requires star.Some? ==> star.value < |pattern|
  {
    star.Some? && SomeSplit(pattern, s, star.value + 1, eaten + 1)
  }

  /** `seg` is the star-free run of tokens from just after the star to `p`, one byte of `s` each. */
  ghost predicate Run(pattern: Bytes, star: Option<nat>, eaten: nat, seg: seq<Token>, p: nat, i: nat)
    requires p <= |pattern|
  {
    star.Some? ==>
      && star.value < p
      && eaten + |seg| == i
      && (forall t :: t in seg ==> !t.Star?)
      && Tokens(pattern[star.value + 1..]) == seg + Tokens(pattern[p..])
  }

  lemma StarAt(pattern: Bytes, s: Bytes, p: nat, i: nat)
    requires p < |pattern| && i <= |s| && pattern[p] == STAR
    ensures MatchesFrom(pattern, s, p, i) <==> SomeSplit(pattern, s, p + 1, i)
  {
    hide Tokens, Matches;
    TokensAt(pattern, p);
    var next := p + 1;
    var rest := Tokens(pattern[next..]);
    StarIsSomeSuffix(rest, s, i);
    if MatchesFrom(pattern, s, p, i) {
      var k :| i <= k <= |s| && Matches(rest, s[k..]);
      assert MatchesFrom(pattern, s, next, k);
    }
    if SomeSplit(pattern, s, next, i) {
      var k :| i <= k <= |s| && MatchesFrom(pattern, s, next, k);
      assert Matches(rest, s[k..]);
    }
  }

  /** Meeting a new star makes every earlier star's remaining split redundant. */
  lemma NewStarSubsumes(pattern: Bytes, s: Bytes, star: Option<nat>, eaten: nat, seg: seq<Token>, p: nat, i: nat)
    requires p < |pattern| && i <= |s| && pattern[p] == STAR
    requires Run(pattern, star, eaten, seg, p, i)
    ensures MatchesFrom(pattern, s, p, i) || LaterSplit(pattern, s, star, eaten)
            <==> MatchesFrom(pattern, s, p + 1, i) || LaterSplit(pattern, s, Some(p), i)
  {
    hide Tokens, Matches, FirstToken;
    StarAt(pattern, s, p, i);
    var next := p + 1;
    assert SomeSplit(pattern, s, next, i) <==>
           MatchesFrom(pattern, s, next, i) || SomeSplit(pattern, s, next, i + 1);
    if LaterSplit(pattern, s, star, eaten) {
      var from := star.value + 1;
      var k :| eaten + 1 <= k <= |s| && MatchesFrom(pattern, s, from, k);
      FixedWidth(seg, Tokens(pattern[p..]), s[k..]);
      assert s[k..][|seg|..] == s[k + |seg|..];
      StarAt(pattern, s, p, k + |seg|);
      var j :| k + |seg| <= j <= |s| && MatchesFrom(pattern, s, next, j);
      assert SomeSplit(pattern, s, next, i);
    }
  }

  /** Passing the non-star token `t`, of `n` pattern bytes, lengthens the run by that token. */
  lemma ExtendRun(pattern: Bytes, star: Option<nat>, eaten: nat, seg: seq<Token>, p: nat, i: nat, t: Token, n: nat)
    requires p < |pattern| && p + n <= |pattern| && !t.Star?
    requires Tokens(pattern[p..]) == [t] + Tokens(pattern[p + n..])
    requires Run(pattern, star, eaten, seg, p, i)
    ensures Run(pattern, star, eaten, seg + [t], p + n, i + 1)
  {
    if star.Some? {
      Regroup(seg, t, Tokens(pattern[p + n..]));
    }
  }

  lemma Regroup(seg: seq<Token>, t: Token, rest: seq<Token>)
    ensures seg + ([t] + rest) == (seg + [t]) + rest
  {
  }

  /**
   * One turn at a non-star token: the pattern bytes it takes when it accepts `s[i]`, or 0 when it
   * refuses, in which case nothing from here can match.
   */
  method TryToken(pattern: Bytes, s: Bytes, p: nat, i: nat) returns (advance: nat)
    requires p < |pattern| && i <= |s| && pattern[p] != STAR
    ensures advance == 0 ==> !MatchesFrom(pattern, s, p, i)
    ensures advance > 0 ==> !FirstToken(pattern[p..]).0.Star?
                            && advance == FirstToken(pattern[p..]).1 && p + advance <= |pattern| && i < |s|
                            && MatchesFrom(pattern, s, p, i) == MatchesFrom(pattern, s, p + advance, i + 1)
  {
    hide Tokens, Matches;
    StepToken(pattern, s, p, i);
    advance := 0;
    if pattern[p] == QUESTION && i < |s| {
      advance := 1;
    } else if pattern[p] == OPEN {
      var c := ClassAt(pattern, p, if i < |s| then Some(s[i]) else None);
      ClassSlice(pattern, p);
      if c.Some? && c.value.0 && i < |s| {
        advance := c.value.1 - p;
      } else if c.None? && i < |s| && s[i] == OPEN {
        advance := 1;
      }
    } else if pattern[p] == ESCAPE {
      if p + 1 < |pattern| && i < |s| && s[i] == pattern[p + 1] {
        advance := 2;
      }
    } else if i < |s| && s[i] == pattern[p] {
      advance := 1;
    }
  }

  /** At the end of the pattern only the end of the string matches. */
  lemma AtEnd(pattern: Bytes, s: Bytes, i: nat)
    requires i <= |s|
    ensures MatchesFrom(pattern, s, |pattern|, i) <==> i == |s|
  {
    assert pattern[|pattern|..] == [];
    assert s[i..] == [] <==> i == |s|;
  }

  lemma FreshRun(pattern: Bytes, star: nat, eaten: nat)
    requires star < |pattern|
    ensures Run(pattern, Some(star), eaten, [], star + 1, eaten)
  {
    hide Tokens;
    assert [] + Tokens(pattern[star + 1..]) == Tokens(pattern[star + 1..]);
  }

  /** Turns that `eaten` bytes under the last star and pattern position `p` account for. */
  ghost function Budget(eaten: nat, width: nat, p: nat): (b: nat) {
    eaten * width + p
  }

  lemma BudgetGrows(eaten: nat, eaten': nat, width: nat, p: nat, p': nat)
    requires p + 1 <= width
    requires eaten < eaten' || (eaten == eaten' && p < p')
    ensures Budget(eaten, width, p) + 1 <= Budget(eaten', width, p')
  {
    if eaten < eaten' {
      MulMonotone(eaten + 1, eaten', width);
      Distribute(eaten, width);
    }
  }

  lemma {:induction false} MulMonotone(a: nat, b: nat, width: nat)
    requires a <= b
    ensures a * width <= b * width
    decreases b - a
  {
    if a < b {
      MulMonotone(a, b - 1, width);
      Distribute(b - 1, width);
    }
  }

  lemma Distribute(a: nat, width: nat)
    ensures (a + 1) * width == a * width + width
  {
  }

  /** The loop's state: the answer is the current attempt's or a later split's, and turns are paid for. */
  ghost predicate Good(pattern: Bytes, s: Bytes, p: nat, i: nat, star: Option<nat>, eaten: nat,
                       seg: seq<Token>, turns: nat)
  {
    && p <= |pattern| && eaten <= i <= |s|
    && (star.Some? ==> star.value < |pattern|)
    && Run(pattern, star, eaten, seg, p, i)
    && (Matches(Tokens(pattern), s) <==>
        MatchesFrom(pattern, s, p, i) || LaterSplit(pattern, s, star, eaten))
    && turns <= Budget(eaten, |pattern| + 1, p)
  }

  lemma GoodStart(pattern: Bytes, s: Bytes)
    ensures Good(pattern, s, 0, 0, None, 0, [], 0)
  {
    assert pattern[0..] == pattern && s[0..] == s;
  }

  lemma GoodStar(pattern: Bytes, s: Bytes, p: nat, i: nat, star: Option<nat>, eaten: nat,
                 seg: seq<Token>, turns: nat)
    requires Good(pattern, s, p, i, star, eaten, seg, turns)
    requires p < |pattern| && pattern[p] == STAR
    ensures Good(pattern, s, p + 1, i, Some(p), i, [], turns + 1)
  {
    hide Tokens, Matches, MatchesFrom, LaterSplit, Budget, Run;
    NewStarSubsumes(pattern, s, star, eaten, seg, p, i);
    FreshRun(pattern, p, i);
    BudgetGrows(eaten, i, |pattern| + 1, p, p + 1);
  }

  lemma GoodToken(pattern: Bytes, s: Bytes, p: nat, i: nat, star: Option<nat>, eaten: nat,
                  seg: seq<Token>, turns: nat, t: Token, n: nat)
    requires Good(pattern, s, p, i, star, eaten, seg, turns)
    requires p < |pattern| && i < |s| && FirstToken(pattern[p..]) == (t, n) && !t.Star? && p + n <= |pattern|
    requires MatchesFrom(pattern, s, p, i) == MatchesFrom(pattern, s, p + n, i + 1)
    ensures Good(pattern, s, p + n, i + 1, star, eaten, seg + [t], turns + 1)
  {
    hide Tokens, Matches, MatchesFrom, LaterSplit, Budget, Run, FirstToken;
    TokensAt(pattern, p);
    ExtendRun(pattern, star, eaten, seg, p, i, t, n);
    BudgetGrows(eaten, eaten, |pattern| + 1, p, p + n);
  }

  /** The star takes one more byte: the split it was waiting for becomes the current attempt. */
  lemma GoodRetry(pattern: Bytes, s: Bytes, p: nat, i: nat, star: nat, eaten: nat,
                  seg: seq<Token>, turns: nat)
    requires Good(pattern, s, p, i, Some(star), eaten, seg, turns)
    requires !MatchesFrom(pattern, s, p, i) && eaten < |s|
    ensures Good(pattern, s, star + 1, eaten + 1, Some(star), eaten + 1, [], turns + 1)
  {
    hide Tokens, Matches, MatchesFrom, Budget, Run;
    var next := star + 1;
    assert SomeSplit(pattern, s, next, eaten + 1) <==>
           MatchesFrom(pattern, s, next, eaten + 1) || SomeSplit(pattern, s, next, eaten + 2);
    FreshRun(pattern, star, eaten + 1);
    BudgetGrows(eaten, eaten + 1, |pattern| + 1, p, next);
  }

  lemma GoodTurns(pattern: Bytes, s: Bytes, p: nat, i: nat, star: Option<nat>, eaten: nat,
                  seg: seq<Token>, turns: nat)
    requires Good(pattern, s, p, i, star, eaten, seg, turns)
    ensures turns + 1 <= (|pattern| + 1) * (|s| + 1)
  {
    hide Tokens, Matches, MatchesFrom, LaterSplit, Run;
    BudgetGrows(eaten, |s| + 1, |pattern| + 1, p, 0);
  }

  /**
   * The two-pointer matcher. It decides exactly what the recursive matcher decides, and its loop
   * turns at most (|pattern| + 1) * (|s| + 1) times.
   */
  method GlobMatch(pattern: Bytes, s: Bytes) returns (matched: bool, ghost turns: nat)
    ensures matched <==> Matches(Tokens(pattern), s)
    ensures turns <= (|pattern| + 1) * (|s| + 1)
  {
    hide Tokens, Matches, MatchesFrom, FirstToken, Run, Budget;
    var p: nat, i: nat := 0, 0;
    var star: Option<nat> := None;
    var starS: nat := 0;
    turns := 0;
    ghost var seg: seq<Token> := [];
    GoodStart(pattern, s);
    while true
      invariant Good(pattern, s, p, i, star, starS, seg, turns)
      decreases |s| - starS, |pattern| - p
    {
      GoodTurns(pattern, s, p, i, star, starS, seg, turns);
      var advance := 0;
      if p < |pattern| {
        if pattern[p] == STAR {
          GoodStar(pattern, s, p, i, star, starS, seg, turns);
          star, starS, seg, p, turns := Some(p), i, [], p + 1, turns + 1;
          continue;
        }
        advance := TryToken(pattern, s, p, i);
        if advance > 0 {
          ghost var t := FirstToken(pattern[p..]).0;
          GoodToken(pattern, s, p, i, star, starS, seg, turns, t, advance);
          seg, p, i, turns := seg + [t], p + advance, i + 1, turns + 1;
          continue;
        }
      } else {
        AtEnd(pattern, s, i);
        if i == |s| {
          return true, turns + 1;
        }
      }
      if star.None? || starS >= |s| {
        return false, turns + 1;
      }
      GoodRetry(pattern, s, p, i, star.value, starS, seg, turns);
      starS := starS + 1;
      i, p, seg, turns := starS, star.value + 1, [], turns + 1;
    }
  }
}
