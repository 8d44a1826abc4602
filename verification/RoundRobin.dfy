/** Round robin in the name server: which server the queries get, over whole runs.
  *
  * `route` in src/ospf.c answers query number c (counted from 0) with the node at position
  * `query_count % size`, and the counter is 32 bits wide.
  */
module RoundRobin {

  const WRAP: nat := 0x1_0000_0000

  /** The counter after `c` queries, and the position of the server that answers the next one. */
  function Counter(c: nat): nat {
    c % WRAP
  }

  function Turn(k: nat, c: nat): (s: nat)
    requires k > 0
    ensures s < k
  {
    Counter(c) % k
  }

  lemma CounterStep(c: nat)
    ensures Counter(c + 1) == (Counter(c) + 1) % WRAP
  {
  }

  // ---- arithmetic ----

  lemma MulDifference(a: int, b: int, k: int)
    ensures (a - b) * k == a * k - b * k
  {
  }

  /** A multiple of `k` strictly between -k and k is 0. */
  lemma SmallMultiple(d: int, k: int)
    requires -k < d * k < k
    ensures d == 0
  {
    if d >= 1 {
      MulDifference(d, 1, k);
      MulNonNegative(d - 1, k);
    } else if d <= -1 {
      MulDifference(-1, d, k);
      MulNonNegative(-1 - d, k);
    }
  }

  lemma MulNonNegative(a: int, k: int)
    requires a >= 0 && k >= 0
    ensures a * k >= 0
  {
  }

  lemma DivModUnique(x: int, k: int, q: int, r: int)
    requires k > 0 && x == q * k + r && 0 <= r < k
    ensures x / k == q && x % k == r
  {
    var q', r' := x / k, x % k;
    assert x == q' * k + r';
    MulDifference(q', q, k);
    SmallMultiple(q' - q, k);
  }

  lemma SameRemainder(a: int, b: int, k: int)
    requires k > 0 && a < b < a + k
    ensures a % k != b % k
  {
    if a % k == b % k {
      var x, y := a / k, b / k;
      assert a == x * k + a % k && b == y * k + b % k;
      MulDifference(y, x, k);
      SmallMultiple(y - x, k);
    }
  }

  /** Without a wrap in between the counter just counts. */
  lemma CounterAhead(c: nat, d: nat)
    requires Counter(c) + d < WRAP
    ensures Counter(c + d) == Counter(c) + d
  {
    DivModUnique(c + d, WRAP, c / WRAP, Counter(c) + d);
  }

  /** Past a wrap it counts from 0. */
  lemma CounterWrapped(c: nat, d: nat)
    requires WRAP <= Counter(c) + d < 2 * WRAP
    ensures Counter(c + d) == Counter(c) + d - WRAP
  {
    DivModUnique(c + d, WRAP, c / WRAP + 1, Counter(c) + d - WRAP);
  }

  /** When `k` divides 2^32 the wrap is invisible. */
  lemma TurnDividing(k: nat, c: nat)
    requires k > 0 && WRAP % k == 0
    ensures Turn(k, c) == c % k
  {
    var m, q := WRAP / k, c / WRAP;
    var r := Counter(c);
    assert WRAP == m * k;
    assert c == q * WRAP + r;
    assert q * (m * k) == (q * m) * k;
    assert c == (q * m + r / k) * k + r % k;
    DivModUnique(c, k, q * m + r / k, r % k);
  }

  /** The turns go round the servers in order, and start afresh after 2^32 queries. */
  lemma TurnMeaning(k: nat, c: nat)
    requires k > 0
    ensures c < 0x1_0000_0000 ==> Turn(k, c) == c % k
    ensures Turn(k, c + 0x1_0000_0000) == Turn(k, c)
  {
    if c < WRAP {
      DivModUnique(c, WRAP, 0, c);
    }
    DivModUnique(c + WRAP, WRAP, c / WRAP + 1, c % WRAP);
  }

  // ---- any k consecutive queries ----

  ghost predicate AllDifferent(k: nat, c: nat)
    requires k > 0
  {
    forall i, j :: c <= i < j < c + k ==> Turn(k, i) != Turn(k, j)
  }

  lemma DifferentWithoutWrap(k: nat, c: nat)
    requires k > 0 && Counter(c) + k <= WRAP
    ensures AllDifferent(k, c)
  {
    forall i, j | c <= i < j < c + k
      ensures Turn(k, i) != Turn(k, j)
    {
      CounterAhead(c, i - c);
      CounterAhead(c, j - c);
      SameRemainder(Counter(i), Counter(j), k);
    }
  }

  lemma DifferentWhenDividing(k: nat, c: nat)
    requires k > 0 && WRAP % k == 0
    ensures AllDifferent(k, c)
  {
    forall i, j | c <= i < j < c + k
      ensures Turn(k, i) != Turn(k, j)
    {
      TurnDividing(k, i);
      TurnDividing(k, j);
      SameRemainder(i, j, k);
    }
  }

  /** A wrap inside the window hands some server two of the queries when `k` does not divide 2^32. */
  lemma RepeatAcrossWrap(k: nat, c: nat) returns (i: nat, j: nat)
    requires 0 < k <= WRAP && Counter(c) + k > WRAP && WRAP % k != 0
    ensures c <= i < j < c + k && Turn(k, i) == Turn(k, j)
  {
    var w, r := WRAP - Counter(c), WRAP % k;
    var before := if w >= r then w - r else 0;   // queries of the window before the repeated one
    var after := if w >= r then w else r;
    i, j := c + before, c + after;
    CounterAhead(c, before);
    CounterWrapped(c, after);
    var x, y := Counter(i), Counter(j);
    assert y < k;
    DivModUnique(y, k, 0, y);
    assert WRAP == (WRAP / k) * k + r;
    assert x == (WRAP / k) * k + y;
    DivModUnique(x, k, WRAP / k, y);
  }

  /** Any k consecutive queries go to k different servers, unless the counter wraps among them and k does
    * not divide 2^32; then two of them go to the same server.
    */
  lemma ConsecutiveQueriesDiffer(k: nat, c: nat)
    requires 0 < k <= WRAP
    ensures AllDifferent(k, c) <==> Counter(c) + k <= WRAP || WRAP % k == 0
  {
    if Counter(c) + k <= WRAP {
      DifferentWithoutWrap(k, c);
    } else if WRAP % k == 0 {
      DifferentWhenDividing(k, c);
    } else {
      var i, j := RepeatAcrossWrap(k, c);
    }
  }

  /** Three servers, and the last query before the wrap and the next one go to the same server. */
  lemma ThreeServersRepeat()
    ensures Turn(3, 4294967295) == Turn(3, 4294967296) == 0
  {
    DivModUnique(WRAP, WRAP, 1, 0);
  }

  // ---- runs in which only some requests are answered ----

  /** How many of the first `n` requests are answered. */
  function Taken(answered: seq<bool>, n: nat): nat
    requires n <= |answered|
  {
    if n == 0 then 0 else Taken(answered, n - 1) + if answered[n - 1] then 1 else 0
  }

  lemma {:induction false} TakenGrows(answered: seq<bool>, i: nat, j: nat)
    requires i <= j <= |answered|
    ensures Taken(answered, i) <= Taken(answered, j)
    ensures i < j && answered[i] ==> Taken(answered, i) < Taken(answered, j)
  {
    if i < j {
      TakenGrows(answered, i, j - 1);
    }
  }

  /** Some answered request has the `m`th turn of the run. */
  lemma {:induction false} TurnTaken(answered: seq<bool>, n: nat, m: nat) returns (i: nat)
    requires n <= |answered| && m < Taken(answered, n)
    ensures i < n && answered[i] && Taken(answered, i) == m
  {
    if m == Taken(answered, n - 1) {
      i := n - 1;
    } else {
      i := TurnTaken(answered, n - 1, m);
    }
  }

  /** No two answered requests have the same turn, if `q` were answered before. */
  ghost predicate TurnsDiffer(k: nat, q: nat, answered: seq<bool>)
    requires k > 0
  {
    forall i, j :: 0 <= i < j < |answered| && answered[i] && answered[j] ==>
      Turn(k, q + Taken(answered, i)) != Turn(k, q + Taken(answered, j))
  }

  /** Whatever requests go unanswered in between, `k` answers go to `k` different servers under the same
    * condition as `k` queries in a row.
    */
  lemma AnsweredQueriesDiffer(k: nat, q: nat, answered: seq<bool>)
    requires 0 < k <= WRAP && Taken(answered, |answered|) == k
    ensures TurnsDiffer(k, q, answered) <==> Counter(q) + k <= WRAP || WRAP % k == 0
  {
    ConsecutiveQueriesDiffer(k, q);
    if AllDifferent(k, q) {
      forall i, j | 0 <= i < j < |answered| && answered[i] && answered[j]
        ensures Turn(k, q + Taken(answered, i)) != Turn(k, q + Taken(answered, j))
      {
        TakenGrows(answered, i, j);
        TakenGrows(answered, j, |answered|);
      }
    } else {
      var x, y :| q <= x < y < q + k && Turn(k, x) == Turn(k, y);
      var i := TurnTaken(answered, |answered|, x - q);
      var j := TurnTaken(answered, |answered|, y - q);
      if j <= i {
        TakenGrows(answered, j, i);
      }
    }
  }

  // ---- shares over a whole run ----

  /** How many of the first `n` queries server `s` gets. */
  function Share(k: nat, n: nat, s: nat): nat
    requires k > 0
  {
    if n == 0 then 0 else Share(k, n - 1, s) + if Turn(k, n - 1) == s then 1 else 0
  }

  function EvenShare(k: nat, n: nat, s: nat): nat
    requires k > 0
  {
    n / k + if s < n % k then 1 else 0
  }

  lemma EvenShareStep(k: nat, n: nat, s: nat)
    requires k > 0 && s < k
    ensures EvenShare(k, n + 1, s) == EvenShare(k, n, s) + if n % k == s then 1 else 0
  {
    if n % k + 1 < k {
      DivModUnique(n + 1, k, n / k, n % k + 1);
    } else {
      assert (n / k + 1) * k == n / k * k + k;
      DivModUnique(n + 1, k, n / k + 1, 0);
    }
  }

  /** Up to 2^32 queries every server gets its even share. */
  lemma {:induction false} SharesBeforeWrap(k: nat, n: nat, s: nat)
    requires s < k && n <= WRAP
    ensures Share(k, n, s) == EvenShare(k, n, s)
  {
    if n == 0 {
      DivModUnique(0, k, 0, 0);
    } else {
      SharesBeforeWrap(k, n - 1, s);
      DivModUnique(n - 1, WRAP, 0, n - 1);
      EvenShareStep(k, n - 1, s);
    }
  }

  /** Every full round of the counter adds the same again. */
  lemma {:induction false} SharesAfterWrap(k: nat, n: nat, s: nat)
    requires k > 0
    ensures Share(k, WRAP + n, s) == Share(k, WRAP, s) + Share(k, n, s)
  {
    if n > 0 {
      SharesAfterWrap(k, n - 1, s);
      DivModUnique(WRAP + (n - 1), WRAP, (n - 1) / WRAP + 1, (n - 1) % WRAP);
    }
  }

  ghost predicate Fair(k: nat, n: nat)
    requires k > 0
  {
    forall s, t :: 0 <= s < k && 0 <= t < k ==> Share(k, n, s) <= Share(k, n, t) + 1
  }

  /** With fewer than 2^32 queries the servers' loads differ by at most one. */
  lemma FairBeforeWrap(k: nat, n: nat)
    requires k > 0 && n <= WRAP
    ensures Fair(k, n)
  {
    forall s, t | 0 <= s < k && 0 <= t < k
      ensures Share(k, n, s) <= Share(k, n, t) + 1
    {
      SharesBeforeWrap(k, n, s);
      SharesBeforeWrap(k, n, t);
    }
  }

  lemma {:induction false} SharesWhenDividing(k: nat, n: nat, s: nat)
    requires s < k && WRAP % k == 0
    ensures Share(k, n, s) == EvenShare(k, n, s)
  {
    if n == 0 {
      DivModUnique(0, k, 0, 0);
    } else {
      SharesWhenDividing(k, n - 1, s);
      TurnDividing(k, n - 1);
      EvenShareStep(k, n - 1, s);
    }
  }

  /** From two full rounds on the first server is at least two queries ahead of the last one. */
  lemma {:induction false} UnfairAfterTwoRounds(k: nat, n: nat)
    requires 0 < k <= WRAP && WRAP % k != 0 && n >= WRAP + WRAP
    ensures Share(k, n, 0) >= Share(k, n, k - 1) + 2 && !Fair(k, n)
    ensures n == WRAP + WRAP ==> Share(k, n, 0) == Share(k, n, k - 1) + 2
    decreases n
  {
    var m: nat := n - (WRAP + WRAP);
    assert n == WRAP + (WRAP + m) == WRAP + WRAP + m;
    SharesAfterWrap(k, WRAP + m, 0);
    SharesAfterWrap(k, WRAP + m, k - 1);
    if m < WRAP {
      SharesAfterWrap(k, m, 0);
      SharesAfterWrap(k, m, k - 1);
      SharesBeforeWrap(k, WRAP, 0);
      SharesBeforeWrap(k, WRAP, k - 1);
      SharesBeforeWrap(k, m, 0);
      SharesBeforeWrap(k, m, k - 1);
    } else {
      UnfairAfterTwoRounds(k, WRAP + m);
      SharesBeforeWrap(k, WRAP, 0);
      SharesBeforeWrap(k, WRAP, k - 1);
    }
  }

  /** Loads that have two steps, after servers `r` and `p`. */
  ghost predicate TwoSteps(k: nat, n: nat, c: int, r: nat, p: nat)
    requires k > 0
  {
    forall s :: 0 <= s < k ==> Share(k, n, s) == c + (if s < r then 1 else 0) + (if s < p then 1 else 0)
  }

  lemma FairWithTwoSteps(k: nat, n: nat, c: int, r: nat, p: nat)
    requires 0 < r < k && p < k && TwoSteps(k, n, c, r, p)
    ensures Fair(k, n) <==> p == 0
  {
    assert p > 0 ==> Share(k, n, 0) == Share(k, n, k - 1) + 2;
  }

  lemma SharesInSecondRound(k: nat, m: nat, s: nat)
    requires s < k && m <= WRAP
    ensures Share(k, WRAP + m, s) == EvenShare(k, WRAP, s) + EvenShare(k, m, s)
  {
    SharesAfterWrap(k, m, s);
    SharesBeforeWrap(k, WRAP, s);
    SharesBeforeWrap(k, m, s);
  }

  lemma StepsFromShares(k: nat, n: nat, a: nat, b: nat)
    requires k > 0
    requires forall s :: 0 <= s < k ==> Share(k, n, s) == EvenShare(k, a, s) + EvenShare(k, b, s)
    ensures TwoSteps(k, n, a / k + b / k, a % k, b % k)
  {
  }

  /** In the second round the loads differ by at most one exactly when that round's queries come out even. */
  lemma FairInSecondRound(k: nat, m: nat)
    requires 0 < k <= WRAP && WRAP % k != 0 && m <= WRAP
    ensures Fair(k, WRAP + m) <==> m % k == 0
  {
    var n := WRAP + m;
    forall s | 0 <= s < k
      ensures Share(k, n, s) == EvenShare(k, WRAP, s) + EvenShare(k, m, s)
    {
      SharesInSecondRound(k, m, s);
    }
    StepsFromShares(k, n, WRAP, m);
    FairWithTwoSteps(k, n, WRAP / k + m / k, WRAP % k, m % k);
  }

  /** `n` queries are fair ones: `k` divides 2^32, or the counter has not wrapped yet, or it has once and the
    * queries since then come out even.
    */
  predicate ComesOutEven(k: nat, n: nat)
    requires k > 0
  {
    WRAP % k == 0 || n <= WRAP || (n < WRAP + WRAP && (n - WRAP) % k == 0)
  }

  /** After exactly which queries the loads are within one of each other. */
  lemma FairExactly(k: nat, n: nat)
    requires 0 < k <= WRAP
    ensures Fair(k, n) <==> ComesOutEven(k, n)
  {
    if WRAP % k == 0 {
      forall s, t | 0 <= s < k && 0 <= t < k
        ensures Share(k, n, s) <= Share(k, n, t) + 1
      {
        SharesWhenDividing(k, n, s);
        SharesWhenDividing(k, n, t);
      }
    } else if n <= WRAP {
      FairBeforeWrap(k, n);
    } else if n < WRAP + WRAP {
      FairInSecondRound(k, n - WRAP);
    } else {
      UnfairAfterTwoRounds(k, n);
    }
  }

  /** So they stay so for ever exactly when the number of servers divides 2^32. */
  lemma FairForever(k: nat)
    requires 0 < k <= WRAP
    ensures (forall n: nat :: Fair(k, n)) <==> WRAP % k == 0
  {
    forall n: nat
      ensures Fair(k, n) <==> ComesOutEven(k, n)
    {
      FairExactly(k, n);
    }
    assert WRAP % k != 0 ==> !Fair(k, WRAP + WRAP);
  }

  /** With three servers the loads are apart as soon as the counter has wrapped. */
  lemma ThreeServersUnfair()
    ensures Fair(3, 4294967296) && !Fair(3, 4294967297)
  {
    FairExactly(3, WRAP);
    FairExactly(3, WRAP + 1);
  }

  // ---- shares in runs in which only some requests are answered ----

  /** How many of the first `n` requests server `s` gets. */
  function ShareOfRun(k: nat, answered: seq<bool>, n: nat, s: nat): nat
    requires k > 0 && n <= |answered|
  {
    if n == 0 then 0
    else ShareOfRun(k, answered, n - 1, s) + if answered[n - 1] && Turn(k, Taken(answered, n - 1)) == s then 1 else 0
  }

  /** Unanswered requests do not count. */
  lemma {:induction false} ShareOfRunIsShare(k: nat, answered: seq<bool>, n: nat, s: nat)
    requires k > 0 && n <= |answered|
    ensures ShareOfRun(k, answered, n, s) == Share(k, Taken(answered, n), s)
  {
    if n > 0 {
      ShareOfRunIsShare(k, answered, n - 1, s);
    }
  }

  ghost predicate RunFair(k: nat, answered: seq<bool>, n: nat)
    requires k > 0 && n <= |answered|
  {
    forall s, t :: 0 <= s < k && 0 <= t < k ==> ShareOfRun(k, answered, n, s) <= ShareOfRun(k, answered, n, t) + 1
  }

  lemma RunFairIsFair(k: nat, answered: seq<bool>, n: nat)
    requires k > 0 && n <= |answered|
    ensures RunFair(k, answered, n) <==> Fair(k, Taken(answered, n))
  {
    forall s: nat
      ensures ShareOfRun(k, answered, n, s) == Share(k, Taken(answered, n), s)
    {
      ShareOfRunIsShare(k, answered, n, s);
    }
  }

  /** So the loads of a run are within one of each other under the condition on the number of its answers. */
  lemma RunFairExactly(k: nat, answered: seq<bool>, n: nat)
    requires 0 < k <= WRAP && n <= |answered|
    ensures RunFair(k, answered, n) <==> ComesOutEven(k, Taken(answered, n))
  {
    RunFairIsFair(k, answered, n);
    FairExactly(k, Taken(answered, n));
  }
}
