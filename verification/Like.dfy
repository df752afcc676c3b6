/** LIKE: the wildcard language and the greedy matcher with one backtracking point. */
module Like {
  import opened ItemLists
  import opened Json

  const PERCENT: CodeUnit := 37
  const UNDERSCORE: CodeUnit := 95
  const MAX_STEPS := 1_000_000

  /** t[i..] is in the language of p[j..]: % stands for any text, _ for any one unit. */
  predicate Matches(t: Str, p: Str, i: nat, j: nat)
    requires i <= |t| && j <= |p|
    decreases |t| - i + |p| - j
  {
    if j == |p| then i == |t|
    else if p[j] == PERCENT then Matches(t, p, i, j + 1) || (i < |t| && Matches(t, p, i + 1, j))
    else i < |t| && Meets(t, p, i, j) && Matches(t, p, i + 1, j + 1)
  }

  predicate Meets(t: Str, p: Str, i: nat, j: nat)
    requires i < |t| && j < |p|
  {
    p[j] == UNDERSCORE || p[j] == t[i]
  }

  predicate AllPercent(p: Str, j: nat)
    requires j <= |p|
    decreases |p| - j
  {
    j == |p| || (p[j] == PERCENT && AllPercent(p, j + 1))
  }

  /** The language the matcher decides: a % that meets a % in the text stands for that one unit. */
  predicate Taken(t: Str, p: Str, i: nat, j: nat)
    requires i <= |t| && j <= |p|
    decreases |p| - j, 0
  {
    if i == |t| then AllPercent(p, j)
    else if j == |p| then false
    else if Meets(t, p, i, j) then Taken(t, p, i + 1, j + 1)
    else p[j] == PERCENT && TakenFrom(t, p, i, j + 1)
  }

  /** Taken from some text position at or after i. */
  predicate TakenFrom(t: Str, p: Str, i: nat, j: nat)
    requires i <= |t| && j <= |p|
    decreases |p| - j, 1, |t| - i
  {
    Taken(t, p, i, j) || (i < |t| && TakenFrom(t, p, i + 1, j))
  }

  lemma {:induction false} TakenLater(t: Str, p: Str, i: nat, k: nat, j: nat)
    requires i <= k <= |t| && j <= |p| && TakenFrom(t, p, k, j)
    ensures TakenFrom(t, p, i, j)
    decreases k - i
  {
    if i < k {
      TakenLater(t, p, i + 1, k, j);
    }
  }

  lemma AllPercentLater(p: Str, j: nat, k: nat)
    requires j <= k <= |p| && AllPercent(p, j)
    ensures AllPercent(p, k)
    decreases k - j
  {
    if j < k {
      AllPercentLater(p, j + 1, k);
    }
  }

  predicate Lined(t: Str, p: Str, e: int, k: nat) {
    k < |p| && 0 <= k + e < |t| && Meets(t, p, k + e, k)
  }

  /** p[a..j] meets t[a + e..j + e] unit for unit. */
  predicate Aligned(t: Str, p: Str, e: int, a: nat, j: nat) {
    a <= j <= |p| && 0 <= a + e && j + e <= |t| && forall k: nat :: a <= k < j ==> Lined(t, p, e, k)
  }

  /** An attempt to the right of one that met p[a..j] reaches p[j] no further left: a star in
      between can only stop where that attempt had no % to meet. */
  lemma {:induction false} LaterReaches(t: Str, p: Str, e: int, a: nat, j: nat, q: nat)
    requires Aligned(t, p, e, a, j) && a + e <= q <= |t| && Taken(t, p, q, a)
    ensures TakenFrom(t, p, j + e, j)
    decreases j - a, 0
  {
    if q == |t| {
      AllPercentLater(p, a, j);
      TakenLater(t, p, j + e, q, j);
    } else if a == j {
      TakenLater(t, p, j + e, q, j);
    } else if Meets(t, p, q, a) {
      LaterReaches(t, p, e, a + 1, j, q + 1);
    } else {
      assert Lined(t, p, e, a);
      LaterReachesFrom(t, p, e, a + 1, j, q);
    }
  }

  lemma {:induction false} LaterReachesFrom(t: Str, p: Str, e: int, a: nat, j: nat, q: nat)
    requires Aligned(t, p, e, a, j) && a + e <= q <= |t| && TakenFrom(t, p, q, a)
    ensures TakenFrom(t, p, j + e, j)
    decreases j - a, 1, |t| - q
  {
    if Taken(t, p, q, a) {
      LaterReaches(t, p, e, a, j, q);
    } else {
      LaterReachesFrom(t, p, e, a, j, q + 1);
    }
  }

  /** A star reached at or after i may as well have been reached at i. */
  lemma {:induction false} StarAbsorbs(t: Str, p: Str, i: nat, j: nat)
    requires i <= |t| && j < |p| && p[j] == PERCENT && TakenFrom(t, p, i, j)
    ensures TakenFrom(t, p, i, j + 1)
    decreases |t| - i
  {
    if !Taken(t, p, i, j) {
      StarAbsorbs(t, p, i + 1, j);
    } else if i < |t| && Meets(t, p, i, j) {
      TakenLater(t, p, i, i + 1, j + 1);
    }
  }

  /** The state of the matcher: what remains to be decided is goal. */
  ghost predicate State(t: Str, p: Str, i: int, j: int, star: int, retry: int, goal: bool) {
    && 0 <= retry <= i <= |t| && -1 <= star < j <= |p|
    && if star < 0 then retry == 0 && goal == Taken(t, p, i, j)
       else
         && p[star] == PERCENT && i - retry == j - (star + 1)
         && Aligned(t, p, i - j, star + 1, j)
         && goal == TakenFrom(t, p, retry, star + 1)
         && Taken(t, p, retry, star + 1) == Taken(t, p, i, j)
  }

  lemma StateMeets(t: Str, p: Str, i: nat, j: nat, star: int, retry: nat, goal: bool)
    requires State(t, p, i, j, star, retry, goal) && i < |t| && j < |p| && Meets(t, p, i, j)
    ensures State(t, p, i + 1, j + 1, star, retry, goal)
  {
    assert Lined(t, p, i - j, j);
  }

  lemma StateRetry(t: Str, p: Str, i: nat, j: nat, star: nat, retry: nat, goal: bool)
    requires State(t, p, i, j, star, retry, goal) && i < |t| && !Taken(t, p, i, j)
    ensures State(t, p, retry + 1, star + 1, star, retry + 1, goal)
  {
  }

  /** Moving to a new star forgets the old one without losing anything. */
  lemma StateStar(t: Str, p: Str, i: nat, j: nat, star: int, retry: nat, goal: bool)
    requires State(t, p, i, j, star, retry, goal) && i < |t| && j < |p| && !Meets(t, p, i, j) && p[j] == PERCENT
    ensures State(t, p, i, j + 1, j, i, goal)
  {
    assert Taken(t, p, i, j) == TakenFrom(t, p, i, j + 1);
    if star >= 0 {
      if goal {
        LaterReachesFrom(t, p, i - j, star + 1, j, retry);
        StarAbsorbs(t, p, i, j);
      } else {
        assert !Taken(t, p, retry, star + 1);
      }
    }
  }

  lemma StateEnd(t: Str, p: Str, j: nat, star: int, retry: nat, goal: bool)
    requires State(t, p, |t|, j, star, retry, goal)
    ensures goal == AllPercent(p, j)
  {
    if star >= 0 && goal {
      LaterReachesFrom(t, p, |t| - j, star + 1, j, retry);
    }
  }

  /** Steps the matcher can take before reaching the state (i, star, retry). */
  function Work(n: nat, i: int, star: int, retry: int): int { retry * (n + 2) + (i - retry) + star + 1 }

  lemma WorkStart(n: nat)
    ensures Work(n, 0, -1, 0) == 0
  {
  }

  lemma WorkMeets(n: nat, i: int, star: int, retry: int)
    ensures Work(n, i + 1, star, retry) == Work(n, i, star, retry) + 1
  {
  }

  lemma WorkRetries(n: nat, i: int, j: int, star: int, retry: int)
    requires i - retry == j - (star + 1) && j <= n && -1 <= star
    ensures Work(n, i, star, retry) + 1 <= Work(n, retry + 1, star, retry + 1)
  {
    assert (retry + 1) * (n + 2) == retry * (n + 2) + n + 2;
  }

  lemma WorkStars(n: nat, i: int, j: int, star: int, retry: int)
    requires retry <= i && star < j
    ensures Work(n, i, star, retry) + 1 <= Work(n, i, j, i)
  {
    assert (i - retry) * (n + 2) >= i - retry;
    assert i * (n + 2) == retry * (n + 2) + (i - retry) * (n + 2);
  }

  lemma WorkBound(n: nat, m: nat, i: int, star: int, retry: int)
    requires 0 <= retry <= i <= m && star < n
    ensures Work(n, i, star, retry) <= m * (n + 2) + n
  {
    assert (i - retry) * (n + 2) >= i - retry;
    assert (m - i) * (n + 2) >= 0;
    assert m * (n + 2) == retry * (n + 2) + (i - retry) * (n + 2) + (m - i) * (n + 2);
  }

  /** The matcher, on lower-cased operands; None is the step cap, which operands whose lengths
      multiply to less never reach. It answers exactly Taken: keeping only the last star to return
      to loses nothing. */
  method MatchLike(lower: Str -> Str, value: Str, pattern: Str) returns (r: Option<bool>)
    ensures r.Some? ==> r.value == Taken(lower(value), lower(pattern), 0, 0)
    ensures var m, n := |lower(value)|, |lower(pattern)|; m * (n + 2) + n <= MAX_STEPS ==> r.Some?
  {
    hide State, Work;
    var text, pat := lower(value), lower(pattern);
    var i, j, star, retry, steps := 0, 0, -1, 0, 0;
    ghost var goal := Taken(text, pat, 0, 0);
    StateStart(text, pat);
    WorkStart(|pat|);
    while i < |text|
      invariant 0 <= retry <= i <= |text| && -1 <= star < j <= |pat|
      invariant State(text, pat, i, j, star, retry, goal)
      invariant steps <= Work(|pat|, i, star, retry) && (star < 0 ==> retry == 0)
      invariant star >= 0 ==> i - retry == j - (star + 1)
      decreases |pat| - star, |text| - retry, |text| - i
    {
      WorkMeets(|pat|, i, star, retry);
      WorkBound(|pat|, |text|, i + 1, star, retry);
      steps := steps + 1;
      if steps > MAX_STEPS { return None; }
      if j < |pat| && (pat[j] == UNDERSCORE || pat[j] == text[i]) {
        StateMeets(text, pat, i, j, star, retry, goal);
        i, j := i + 1, j + 1;
      } else if j < |pat| && pat[j] == PERCENT {
        StateStar(text, pat, i, j, star, retry, goal);
        WorkStars(|pat|, i, j, star, retry);
        star, retry, j := j, i, j + 1;
      } else if star >= 0 {
        StateRetry(text, pat, i, j, star, retry, goal);
        WorkRetries(|pat|, i, j, star, retry);
        retry := retry + 1;
        i, j := retry, star + 1;
      } else {
        StateFail(text, pat, i, j, star, retry, goal);
        return Some(false);
      }
    }
    StateEnd(text, pat, j, star, retry, goal);
    while j < |pat| && pat[j] == PERCENT
      invariant 0 <= j <= |pat| && goal == AllPercent(pat, j)
    {
      j := j + 1;
    }
    return Some(j == |pat|);
  }

  lemma StateStart(t: Str, p: Str)
    ensures State(t, p, 0, 0, -1, 0, Taken(t, p, 0, 0))
  {
  }

  lemma StateFail(t: Str, p: Str, i: nat, j: nat, star: int, retry: nat, goal: bool)
    requires State(t, p, i, j, star, retry, goal) && i < |t| && star < 0 && !Taken(t, p, i, j)
    ensures !goal
  {
  }

  // ---- the language decided, against the wildcard language ----

  lemma PercentsMatchEmpty(t: Str, p: Str, j: nat)
    requires j <= |p|
    ensures Matches(t, p, |t|, j) == AllPercent(p, j)
    decreases |p| - j
  {
    if j < |p| && p[j] == PERCENT {
      PercentsMatchEmpty(t, p, j + 1);
    }
  }

  lemma {:induction false} StarMatches(t: Str, p: Str, i: nat, k: nat, j: nat)
    requires i <= k <= |t| && j < |p| && p[j] == PERCENT && Matches(t, p, k, j)
    ensures Matches(t, p, i, j)
    decreases k - i
  {
    if i < k {
      StarMatches(t, p, i + 1, k, j);
    }
  }

  /** True answers are sound for every text. */
  lemma {:induction false} Sound(t: Str, p: Str, i: nat, j: nat)
    requires i <= |t| && j <= |p| && Taken(t, p, i, j)
    ensures Matches(t, p, i, j)
    decreases |p| - j, 0
  {
    if i == |t| {
      PercentsMatchEmpty(t, p, j);
    } else if Meets(t, p, i, j) {
      Sound(t, p, i + 1, j + 1);
      if p[j] == PERCENT {
        assert Matches(t, p, i + 1, j);
      }
    } else {
      SoundFrom(t, p, i, j + 1);
    }
  }

  lemma {:induction false} SoundFrom(t: Str, p: Str, i: nat, j: nat)
    requires i <= |t| && 0 < j <= |p| && p[j - 1] == PERCENT && TakenFrom(t, p, i, j)
    ensures Matches(t, p, i, j - 1)
    decreases |p| - j, 1, |t| - i
  {
    if Taken(t, p, i, j) {
      Sound(t, p, i, j);
    } else {
      SoundFrom(t, p, i + 1, j);
    }
  }

  /** False answers are right for texts without %. */
  lemma {:induction false} Complete(t: Str, p: Str, i: nat, j: nat)
    requires i <= |t| && j <= |p| && PERCENT !in t && Matches(t, p, i, j)
    ensures Taken(t, p, i, j)
    decreases |p| - j, |t| - i
  {
    if i == |t| {
      PercentsMatchEmpty(t, p, j);
    } else if p[j] == PERCENT {
      if Matches(t, p, i, j + 1) {
        Complete(t, p, i, j + 1);
        TakenLater(t, p, i, i, j + 1);
      } else {
        Complete(t, p, i + 1, j);
        TakenLater(t, p, i, i + 1, j + 1);
      }
    } else {
      Complete(t, p, i + 1, j + 1);
    }
  }

  /** The matcher decides the wildcard language of every pattern exactly for the texts without %. */
  lemma LikeExact(t: Str)
    ensures (forall p: Str :: Taken(t, p, 0, 0) == Matches(t, p, 0, 0)) <==> PERCENT !in t
  {
    if PERCENT !in t {
      forall p: Str ensures Taken(t, p, 0, 0) == Matches(t, p, 0, 0) {
        if Taken(t, p, 0, 0) { Sound(t, p, 0, 0); }
        if Matches(t, p, 0, 0) { Complete(t, p, 0, 0); }
      }
    } else {
      var k :| 0 <= k < |t| && t[k] == PERCENT;
      PercentMisread(t, k);
    }
  }

  /** A pattern the text matches and the matcher refuses. */
  function Misread(t: Str, k: nat): Str
    requires k < |t|
  {
    if k + 1 < |t| then t[..k + 1] else t + [UNDERSCORE]
  }

  lemma PercentMisread(t: Str, k: nat)
    requires k < |t| && t[k] == PERCENT
    ensures Matches(t, Misread(t, k), 0, 0) && !Taken(t, Misread(t, k), 0, 0)
  {
    MisreadRefused(t, k, 0);
    MisreadMatches(t, k, 0);
  }

  lemma {:induction false} MisreadRefused(t: Str, k: nat, i: nat)
    requires i <= k + 1 <= |t| && t[k] == PERCENT
    ensures !Taken(t, Misread(t, k), i, i)
    decreases k + 1 - i
  {
    if i <= k {
      MisreadRefused(t, k, i + 1);
    }
  }

  lemma {:induction false} MisreadMatches(t: Str, k: nat, i: nat)
    requires i <= k < |t| && t[k] == PERCENT
    ensures Matches(t, Misread(t, k), i, i)
    decreases k - i
  {
    var p := Misread(t, k);
    if i < k {
      MisreadMatches(t, k, i + 1);
      if p[i] == PERCENT {
        StarMatches(t, p, i, i + 1, i);
      }
    } else if k + 1 < |t| {
      assert Matches(t, p, |t|, k + 1);
      StarMatches(t, p, k, |t|, k);
    } else {
      assert Matches(t, p, |t|, k + 2);
    }
  }
}
