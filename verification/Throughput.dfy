/** The proxy's throughput estimate: the moving average of src/conn.c, over the reals, truncated to a whole
  * number at every update, and the table that holds one average per client and server.
  */
module Throughputs {
  import opened Seqs

  /** C's conversion of a floating point number to int. */
  function Trunc(x: real): int {
    if x >= 0.0 then x.Floor else -(-x).Floor
  }

  /** The throughput of one chunk of `sum` bytes in kilobits per second; the division by 1000 is on ints. */
  function Sample(sum: nat, elapsed: real): real
    requires elapsed > 0.0
  {
    (sum / 1000 * 8) as real / elapsed
  }

  lemma TruncMeaning(x: real)
    ensures x >= 0.0 ==> Trunc(x) as real <= x < (Trunc(x) + 1) as real
    ensures Trunc(-x) == -Trunc(x)
  {
  }

  /** Every full thousand of bytes is eight kilobits. */
  lemma SampleMeaning(sum: nat, elapsed: real, k: nat)
    requires elapsed > 0.0 && 1000 * k <= sum < 1000 * (k + 1)
    ensures Sample(sum, elapsed) * elapsed == (8 * k) as real
  {
    assert sum / 1000 == k;
    DivideAndMultiply((8 * k) as real, elapsed);
  }

  lemma DivideAndMultiply(x: real, y: real)
    requires y != 0.0
    ensures x / y * y == x
  {
  }

  /** The throughput as a whole number. */
  lemma WholeThroughput(sum: nat, elapsed: real)
    requires elapsed > 0.0
    ensures var t, bits := Trunc(Sample(sum, elapsed)), (sum / 1000 * 8) as real;
            t as real * elapsed <= bits < t as real * elapsed + elapsed
  {
    var x, bits := Sample(sum, elapsed), (sum / 1000 * 8) as real;
    SampleMeaning(sum, elapsed, sum / 1000);
    DivideAndMultiply(bits, elapsed);
    NonNegativeQuotient(bits, elapsed);
    TruncMeaning(x);
    WholeQuotient(Trunc(x), x, elapsed, bits);
  }

  lemma NonNegativeQuotient(x: real, y: real)
    requires x >= 0.0 && y > 0.0
    ensures x / y >= 0.0
  {
  }

  lemma WholeQuotient(q: int, x: real, y: real, product: real)
    requires q as real <= x < (q + 1) as real && y > 0.0 && x * y == product
    ensures q as real * y <= product < q as real * y + y
  {
    Scaled(q as real, x, y);
  }

  lemma Scaled(lo: real, x: real, y: real)
    requires lo <= x < lo + 1.0 && y > 0.0
    ensures lo * y <= x * y < lo * y + y
  {
    MulNonNegative(x - lo, y);
    MulPositive(lo + 1.0 - x, y);
  }

  function Mix(alpha: real, s: real, a: real): real {
    alpha * s + (1.0 - alpha) * a
  }

  /** One update of the average; an average of 0 starts afresh from the sample. */
  function Update(alpha: real, avg: int, s: real): int {
    Trunc(if avg != 0 then Mix(alpha, s, avg as real) else s)
  }

  /** Alpha of the sample and the rest of the old average, cut to a whole number; after 0, just the sample. */
  lemma UpdateMeaning(alpha: real, avg: int, s: real)
    requires 0.0 <= alpha <= 1.0 && avg >= 0 && s >= 0.0
    ensures var x := if avg == 0 then s else alpha * s + avg as real - alpha * avg as real;
            Update(alpha, avg, s) as real <= x < (Update(alpha, avg, s) + 1) as real
  {
    MixExpanded(alpha, s, avg as real);
    TruncMeaning(if avg == 0 then s else Mix(alpha, s, avg as real));
  }

  lemma MixExpanded(alpha: real, s: real, a: real)
    requires 0.0 <= alpha <= 1.0 && a >= 0.0 && s >= 0.0
    ensures Mix(alpha, s, a) == alpha * s + a - alpha * a && Mix(alpha, s, a) >= 0.0
  {
    MulNonNegative(alpha, s);
    MulNonNegative(1.0 - alpha, a);
  }

  // ---- arithmetic ----

  function Abs(x: real): (r: real)
    ensures r >= 0.0 && (r == x || r == -x)
  {
    if x >= 0.0 then x else -x
  }

  lemma MulNonNegative(a: real, b: real)
    requires a >= 0.0 && b >= 0.0
    ensures a * b >= 0.0
  {
  }

  lemma MulPositive(a: real, b: real)
    requires a > 0.0 && b > 0.0
    ensures a * b > 0.0
  {
  }

  lemma Reciprocal(a: real)
    requires a > 0.0
    ensures a * (1.0 / a) == 1.0
  {
  }

  lemma MixBounds(alpha: real, s: real, a: real, lo: real, hi: real)
    requires 0.0 <= alpha <= 1.0 && lo <= s <= hi && lo <= a <= hi
    ensures lo <= Mix(alpha, s, a) <= hi
  {
    MulNonNegative(alpha, s - lo);
    MulNonNegative(alpha, hi - s);
    MulNonNegative(1.0 - alpha, a - lo);
    MulNonNegative(1.0 - alpha, hi - a);
  }

  /** A mix lies between its parts, strictly apart from the old value when that is larger. */
  lemma MixBetween(alpha: real, s: real, a: real)
    requires 0.0 < alpha <= 1.0
    ensures a <= s ==> a <= Mix(alpha, s, a) <= s
    ensures a > s ==> s <= Mix(alpha, s, a) < a
  {
    if a <= s {
      MulNonNegative(alpha, s - a);
      MulNonNegative(1.0 - alpha, s - a);
    } else {
      MulPositive(alpha, a - s);
      MulNonNegative(1.0 - alpha, a - s);
    }
  }

  lemma MixError(alpha: real, s: real, a: real)
    requires 0.0 < alpha <= 1.0
    ensures Abs(Mix(alpha, s, a) - s) == (1.0 - alpha) * Abs(a - s)
  {
    MixBetween(alpha, s, a);
    if a >= s {
      MulNonNegative(1.0 - alpha, a - s);
    } else {
      MulNonNegative(1.0 - alpha, s - a);
    }
  }

  // ---- any run of samples ----

  function Averages(alpha: real, avg: int, samples: seq<real>): int {
    if samples == [] then avg
    else Update(alpha, Averages(alpha, avg, samples[..|samples| - 1]), samples[|samples| - 1])
  }

  lemma TruncBounds(x: real, n: nat, hi: real)
    requires n as real <= x <= hi
    ensures n as real <= Trunc(x) as real <= hi
  {
    FloorMonotone(x, n);
    assert x.Floor as real <= x;
  }

  lemma FloorMonotone(x: real, n: int)
    requires n as real <= x
    ensures n <= x.Floor
  {
  }

  lemma UpdateBounds(alpha: real, avg: int, s: real, lo: real, hi: real)
    requires 0.0 <= alpha <= 1.0 && 0.0 <= lo <= s <= hi
    requires avg == 0 || lo.Floor as real <= avg as real <= hi
    ensures lo.Floor as real <= Update(alpha, avg, s) as real <= hi
  {
    if avg != 0 {
      MixBounds(alpha, s, avg as real, lo.Floor as real, hi);
      TruncBounds(Mix(alpha, s, avg as real), lo.Floor, hi);
    } else {
      TruncBounds(s, lo.Floor, hi);
    }
  }

  /** Over any run of updates the average stays between the floor of the smallest sample and the largest. */
  lemma {:induction false} AverageBounded(alpha: real, samples: seq<real>, lo: real, hi: real)
    requires 0.0 <= alpha <= 1.0 && 0.0 <= lo <= hi
    requires forall i :: 0 <= i < |samples| ==> lo <= samples[i] <= hi
    ensures samples != [] ==> lo.Floor as real <= Averages(alpha, 0, samples) as real <= hi
  {
    if samples != [] {
      var front := samples[..|samples| - 1];
      AverageBounded(alpha, front, lo, hi);
      UpdateBounds(alpha, Averages(alpha, 0, front), samples[|samples| - 1], lo, hi);
    }
  }

  // ---- a constant sample ----

  function Constant(alpha: real, avg: int, s: real, n: nat): int {
    if n == 0 then avg else Update(alpha, Constant(alpha, avg, s, n - 1), s)
  }

  function Power(x: real, n: nat): real {
    if n == 0 then 1.0 else x * Power(x, n - 1)
  }

  lemma {:induction false} PowersMultiply(x: real, m: nat, n: nat)
    ensures Power(x, 0) == 1.0 && Power(x, 1) == x
    ensures Power(x, m + n) == Power(x, m) * Power(x, n)
  {
    if m > 0 {
      PowersMultiply(x, m - 1, n);
      assert m + n - 1 == (m - 1) + n;
      assert x * (Power(x, m - 1) * Power(x, n)) == (x * Power(x, m - 1)) * Power(x, n);
    }
  }

  /** It is the run of updates in which all samples are equal. */
  lemma {:induction false} ConstantIsAverages(alpha: real, avg: int, s: real, samples: seq<real>)
    requires forall i :: 0 <= i < |samples| ==> samples[i] == s
    ensures Averages(alpha, avg, samples) == Constant(alpha, avg, s, |samples|)
  {
    if samples != [] {
      ConstantIsAverages(alpha, avg, s, samples[..|samples| - 1]);
    }
  }

  lemma UpdateNonNegative(alpha: real, avg: int, s: real)
    requires 0.0 < alpha <= 1.0 && 0.0 <= s && 0 <= avg
    ensures 0 <= Update(alpha, avg, s)
    ensures Update(alpha, avg, s) == (if avg != 0 then Mix(alpha, s, avg as real) else s).Floor
  {
    MixBetween(alpha, s, avg as real);
  }

  /** One update shrinks the error by 1 - alpha, up to the truncation. */
  lemma ErrorShrinks(alpha: real, c: real, avg: int, s: real)
    requires 0.0 < alpha <= 1.0 && c == 1.0 - alpha && 0.0 <= s && 0 <= avg
    ensures Abs(Update(alpha, avg, s) as real - s) <= c * Abs(avg as real - s) + 1.0
  {
    UpdateNonNegative(alpha, avg, s);
    MixError(alpha, s, avg as real);
    MulNonNegative(1.0 - alpha, Abs(avg as real - s));
  }

  lemma MulEqual(q: real, r: real, x: real)
    requires q == r
    ensures q * x == r * x
  {
  }

  /** Errors that shrink by the factor `c` and then grow by 1. */
  function Err(c: real, n: nat, e0: real): real {
    if n == 0 then e0 else c * Err(c, n - 1, e0) + 1.0
  }

  lemma ErrStep(c: real, n: nat, e0: real, e: real, e': real)
    requires 0.0 <= c && e <= Err(c, n, e0) && e' <= c * e + 1.0
    ensures e' <= Err(c, n + 1, e0)
  {
    MulNonNegative(c, Err(c, n, e0) - e);
  }

  lemma UpdateStep(alpha: real, c: real, avg: int, s: real, n: nat, e0: real)
    requires 0.0 < alpha <= 1.0 && c == 1.0 - alpha && 0.0 <= s && 0 <= avg
    requires Abs(avg as real - s) <= Err(c, n, e0)
    ensures 0 <= Update(alpha, avg, s)
    ensures Abs(Update(alpha, avg, s) as real - s) <= Err(c, n + 1, e0)
  {
    UpdateNonNegative(alpha, avg, s);
    ErrorShrinks(alpha, c, avg, s);
    ErrStep(c, n, e0, Abs(avg as real - s), Abs(Update(alpha, avg, s) as real - s));
  }

  lemma {:induction false} ErrorBelowErr(alpha: real, c: real, avg: int, s: real, n: nat, e0: real)
    requires 0.0 < alpha <= 1.0 && c == 1.0 - alpha && 0.0 <= s && 0 <= avg && e0 == Abs(avg as real - s)
    ensures 0 <= Constant(alpha, avg, s, n)
    ensures Abs(Constant(alpha, avg, s, n) as real - s) <= Err(c, n, e0)
  {
    if n > 0 {
      ErrorBelowErr(alpha, c, avg, s, n - 1, e0);
      UpdateStep(alpha, c, Constant(alpha, avg, s, n - 1), s, n - 1, e0);
    }
  }

  lemma GeometricStep(alpha: real, c: real, p: real, e0: real, t: real, e: real)
    requires c == 1.0 - alpha && 0.0 <= c && alpha * t == 1.0
    requires e <= p * e0 + t
    ensures c * e + 1.0 <= (c * p) * e0 + t
  {
    MulNonNegative(c, p * e0 + t - e);
    assert c * (p * e0) == (c * p) * e0;
  }

  lemma {:induction false} ErrIsGeometric(alpha: real, c: real, n: nat, e0: real, t: real)
    requires c == 1.0 - alpha && 0.0 <= c && alpha * t == 1.0 && t >= 0.0
    ensures Err(c, n, e0) <= Power(c, n) * e0 + t
  {
    if n == 0 {
      MulEqual(Power(c, 0), 1.0, e0);
    } else {
      ErrIsGeometric(alpha, c, n - 1, e0, t);
      GeometricStep(alpha, c, Power(c, n - 1), e0, t, Err(c, n - 1, e0));
      MulEqual(Power(c, n), c * Power(c, n - 1), e0);
    }
  }

  lemma ConstantErrorDecays(alpha: real, c: real, avg: int, s: real, n: nat, e0: real, t: real)
    requires 0.0 < alpha <= 1.0 && 0.0 <= s && 0 <= avg
    requires c == 1.0 - alpha && e0 == Abs(avg as real - s) && t == 1.0 / alpha
    ensures Abs(Constant(alpha, avg, s, n) as real - s) <= Power(c, n) * e0 + t
  {
    Reciprocal(alpha);
    ErrorBelowErr(alpha, c, avg, s, n, e0);
    ErrIsGeometric(alpha, c, n, e0, t);
  }

  /** Under equal samples the error `e0` decays geometrically, by c = 1 - alpha, down to the cost of truncation,
    * t = 1 / alpha, in spite of the fresh start whenever the average is 0.
    */
  lemma ErrorDecays(alpha: real, c: real, avg: int, s: real, samples: seq<real>, n: nat, e0: real, t: real)
    requires 0.0 < alpha <= 1.0 && 0.0 <= s && 0 <= avg
    requires c == 1.0 - alpha && e0 == Abs(avg as real - s) && t == 1.0 / alpha
    requires |samples| == n && forall i :: 0 <= i < n ==> samples[i] == s
    ensures Abs(Averages(alpha, avg, samples) as real - s) <= Power(c, n) * e0 + t
  {
    ConstantErrorDecays(alpha, c, avg, s, n, e0, t);
    ConstantIsAverages(alpha, avg, s, samples);
  }

  /** The estimate rests exactly where it is at most `s` and less than 1 / alpha below it: it never creeps
    * up to the true throughput from further down than that, and an estimate of 0 rests for samples below 1.
    */
  lemma RestsExactly(alpha: real, avg: int, s: real)
    requires 0.0 < alpha <= 1.0 && 0.0 <= s && 0 <= avg
    ensures Update(alpha, avg, s) == avg <==>
              if avg == 0 then s < 1.0 else 0.0 <= alpha * (s - avg as real) < 1.0
  {
    UpdateNonNegative(alpha, avg, s);
    MixGap(alpha, s, avg as real);
  }

  lemma MixGap(alpha: real, s: real, a: real)
    ensures Mix(alpha, s, a) == a + alpha * (s - a)
  {
  }

  /** The average never overtakes a constant sample from below, and from above it never drops under the
    * sample's floor; either way it moves towards the sample until it rests.
    */
  lemma MovesTowards(alpha: real, avg: int, s: real)
    requires 0.0 < alpha <= 1.0 && 0.0 <= s && 0 <= avg
    ensures avg as real <= s ==> avg <= Update(alpha, avg, s) && Update(alpha, avg, s) as real <= s
    ensures avg as real > s ==> s.Floor <= Update(alpha, avg, s) < avg
  {
    UpdateNonNegative(alpha, avg, s);
    MixBetween(alpha, s, avg as real);
  }

  lemma {:induction false} ConstantShift(alpha: real, avg: int, s: real, n: nat)
    ensures Constant(alpha, Update(alpha, avg, s), s, n) == Constant(alpha, avg, s, n + 1)
  {
    if n > 0 {
      ConstantShift(alpha, avg, s, n - 1);
    }
  }

  /** Under a constant sample the estimate comes to rest, from any start, after at most as many updates as it
    * starts away from the sample's floor.
    */
  lemma {:induction false} ComesToRest(alpha: real, avg: int, s: real) returns (n: nat)
    requires 0.0 < alpha <= 1.0 && 0.0 <= s && 0 <= avg
    ensures Update(alpha, Constant(alpha, avg, s, n), s) == Constant(alpha, avg, s, n)
    ensures n <= if avg as real > s then avg - s.Floor else s.Floor - avg
    decreases if avg as real > s then avg + s.Floor + 1 else s.Floor - avg
  {
    var next := Update(alpha, avg, s);
    if next == avg {
      n := 0;
    } else {
      UpdateNonNegative(alpha, avg, s);
      MovesTowards(alpha, avg, s);
      var m := ComesToRest(alpha, next, s);
      ConstantShift(alpha, avg, s, m);
      n := m + 1;
    }
  }

  // ---- the table ----

  /** One entry per pair of a client's and a server's address. */
  class Thruput {
    const clitAddr: nat
    const servAddr: nat
    var avgPut: int

    constructor (clitAddr: nat, servAddr: nat)
      ensures this.clitAddr == clitAddr && this.servAddr == servAddr && avgPut == 0
    {
      this.clitAddr, this.servAddr, avgPut := clitAddr, servAddr, 0;
    }
  }

  class ThruTable {
    const thruL: array<Thruput?>
    var maxThruIdx: int
    ghost var pairs: seq<(nat, nat)>  // whose averages the table holds, by slot

    /** Slots fill from the front and are never freed; each has a record of its own. */
    ghost predicate Valid()
      reads this, thruL, set o: object | o in thruL[..]
    {
      && |pairs| == maxThruIdx + 1 <= thruL.Length
      && (forall i :: 0 <= i < |pairs| ==> thruL[i] != null && (thruL[i].clitAddr, thruL[i].servAddr) == pairs[i])
      && (forall i :: |pairs| <= i < thruL.Length ==> thruL[i] == null)
      && (forall i, j :: 0 <= i < j < |pairs| ==> thruL[i] != thruL[j])
    }

    /** The averages, slot by slot. */
    ghost function Avgs(): (avgs: seq<int>)
      requires Valid()
      reads this, thruL, set o: object | o in thruL[..]
      ensures |avgs| == |pairs| && forall i :: 0 <= i < |pairs| ==> avgs[i] == thruL[i].avgPut
    {
      seq(|pairs|, i requires 0 <= i < |pairs| &&
        Valid() reads this, thruL, set o: object | o in thruL[..] => thruL[i].avgPut)
    }

    /** No pair has two slots. */
    ghost predicate Unique()
      reads this
    {
      Distinct(pairs)
    }

    constructor (size: nat)
      ensures Valid() && Unique() && pairs == [] && thruL.Length == size && fresh(thruL)
    {
      thruL := new Thruput?[size](_ => null);
      maxThruIdx := -1;
      pairs := [];
    }

    /** `get_thru_by_addrs`: the pair's first slot, or -1. */
    method GetThruByAddrs(clitAddr: nat, servAddr: nat) returns (i: int)
      requires Valid()
      ensures if (clitAddr, servAddr) in pairs
              then 0 <= i < |pairs| && pairs[i] == (clitAddr, servAddr) && (clitAddr, servAddr) !in pairs[..i]
              else i == -1
    {
      i := 0;
      while i <= maxThruIdx
        invariant 0 <= i <= maxThruIdx + 1
        invariant forall j :: 0 <= j < i ==> pairs[j] != (clitAddr, servAddr)
      {
        if thruL[i] != null && thruL[i].clitAddr == clitAddr && thruL[i].servAddr == servAddr {
          return;
        }
        i := i + 1;
      }
      i := -1;
    }

    /** `add_thru`: the next slot, or -1; a pair that is there already would get a second one. */
    method AddThru(clitAddr: nat, servAddr: nat) returns (i: int)
      requires Valid()
      modifies this, thruL
      ensures Valid()
      ensures if |old(pairs)| < thruL.Length
              then i == |old(pairs)| && pairs == old(pairs) + [(clitAddr, servAddr)] && Avgs() == old(Avgs()) + [0]
                   && fresh(thruL[i])
              else i == -1 && pairs == old(pairs) && Avgs() == old(Avgs())
      ensures old(Unique()) && (clitAddr, servAddr) !in old(pairs) ==> Unique()
      ensures forall k :: 0 <= k < |old(pairs)| ==> thruL[k] == old(thruL[k])
    {
      i := 0;
      while i < thruL.Length
        invariant 0 <= i <= thruL.Length && i <= |pairs|
      {
        if thruL[i] == null {
          thruL[i] := new Thruput(clitAddr, servAddr);
          if i > maxThruIdx {
            maxThruIdx := i;
          }
          pairs := pairs + [(clitAddr, servAddr)];
          return;
        }
        i := i + 1;
      }
      i := -1;
    }

    /** How the proxy gets at a pair's average: it adds a slot only when the lookup finds none, so that no pair
      * ever has two.
      */
    method FindOrAddThru(clitAddr: nat, servAddr: nat) returns (i: int)
      requires Valid() && Unique()
      modifies this, thruL
      ensures Valid() && Unique()
      ensures if (clitAddr, servAddr) in old(pairs)
              then pairs == old(pairs) && Avgs() == old(Avgs()) && 0 <= i < |pairs| && pairs[i] == (clitAddr, servAddr)
              else if |old(pairs)| < thruL.Length
              then i == |old(pairs)| && pairs == old(pairs) + [(clitAddr, servAddr)] && Avgs() == old(Avgs()) + [0]
                   && fresh(thruL[i])
              else i == -1 && pairs == old(pairs) && Avgs() == old(Avgs())
      ensures forall k :: 0 <= k < |old(pairs)| ==> thruL[k] == old(thruL[k])
    {
      i := GetThruByAddrs(clitAddr, servAddr);
      if i == -1 {
        i := AddThru(clitAddr, servAddr);
      }
    }

    /** `update_thruput` for the entry in slot `i`; `tPut` is what it stores as the connection's throughput. */
    method UpdateThruput(sum: nat, elapsed: real, alpha: real, i: nat) returns (tPut: int)
      requires Valid() && i < |pairs| && sum > 0 && elapsed > 0.0
      modifies thruL[i]
      ensures Valid() && pairs == old(pairs)
      ensures Avgs() == old(Avgs())[i := Update(alpha, old(Avgs())[i], Sample(sum, elapsed))]
      ensures tPut == Trunc(Sample(sum, elapsed))
      ensures tPut as real * elapsed <= (sum / 1000 * 8) as real < tPut as real * elapsed + elapsed
    {
      var newThruput := Sample(sum, elapsed);
      tPut := Trunc(newThruput);
      WholeThroughput(sum, elapsed);
      var thru := thruL[i];
      var currThruput := thru.avgPut;
      if currThruput != 0 {
        newThruput := Mix(alpha, newThruput, currThruput as real);
      }
      thru.avgPut := Trunc(newThruput);
    }
  }

  // ---- whole runs ----

  type Pair = (nat, nat)

  /** A request looks the pair of addresses up and adds it if need be; a chunk that has come in updates its
    * average.
    */
  datatype Event = Ask(pair: Pair) | Chunk(pair: Pair, sum: nat, elapsed: real)

  function Asked(events: seq<Event>): seq<Pair> {
    if events == [] then []
    else
      Asked(events[..|events| - 1]) + match events[|events| - 1] case Ask(pair) => [pair] case Chunk(_, _, _) => []
  }

  ghost predicate Timed(events: seq<Event>) {
    forall e :: e in events && e.Chunk? ==> e.sum > 0 && e.elapsed > 0.0
  }

  /** The throughput samples of one pair. */
  function SamplesOf(events: seq<Event>, pair: Pair): seq<real>
    requires Timed(events)
  {
    if events == [] then []
    else
      var last := events[|events| - 1];
      SamplesOf(events[..|events| - 1], pair) + if last.Chunk? &&
        last.pair == pair then [Sample(last.sum, last.elapsed)] else []
  }

  /** Chunks come for pairs that were asked for, and the table has room for all of those. */
  ghost predicate Served(events: seq<Event>, size: nat) {
    && (forall n :: 0 <= n < |events| && events[n].Chunk? ==> events[n].pair in Asked(events[..n]))
    && |Dedup(Asked(events))| <= size
  }

  lemma {:induction false} AskedGrows(events: seq<Event>, n: nat)
    requires n <= |events|
    ensures Asked(events[..n]) <= Asked(events)
  {
    if n == |events| {
      assert events[..n] == events;
    } else {
      AskedGrows(events[..|events| - 1], n);
      assert events[..|events| - 1][..n] == events[..n];
    }
  }

  lemma ServedBefore(events: seq<Event>, n: nat, size: nat)
    requires n <= |events| && Served(events, size)
    ensures Served(events[..n], size)
  {
    AskedGrows(events, n);
    var asked := Asked(events);
    assert Asked(events[..n]) == asked[..|Asked(events[..n])|];
    DedupGrows(asked, |Asked(events[..n])|);
    forall m | 0 <= m < n && events[..n][m].Chunk?
      ensures events[..n][m].pair in Asked(events[..n][..m])
    {
      assert events[..n][..m] == events[..m];
    }
  }

  /** Who was never asked for has no samples. */
  lemma {:induction false} NoSamplesUnasked(events: seq<Event>, size: nat, pair: Pair)
    requires Timed(events) && Served(events, size) && pair !in Asked(events)
    ensures SamplesOf(events, pair) == []
  {
    if events != [] {
      var n := |events| - 1;
      ServedBefore(events, n, size);
      NoSamplesUnasked(events[..n], size, pair);
    }
  }

  /** The average of each of the pairs: that of its own samples in their order, from 0. */
  function AveragesOf(alpha: real, events: seq<Event>, pairs: seq<Pair>): (avgs: seq<int>)
    requires Timed(events)
    ensures |avgs| == |pairs|
  {
    seq(|pairs|, i requires 0 <= i < |pairs| => Averages(alpha, 0, SamplesOf(events, pairs[i])))
  }

  /** The table holds the average of every pair that was asked for. */
  ghost predicate Averaged(t: ThruTable, alpha: real, events: seq<Event>)
    requires Timed(events)
    reads t, t.thruL, set o: object | o in t.thruL[..]
  {
    t.Valid() && t.pairs == Dedup(Asked(events)) && t.Avgs() == AveragesOf(alpha, events, t.pairs)
  }

  lemma ServedAfter(events: seq<Event>, e: Event, size: nat)
    requires Served(events, size)
    ensures Served(events + [e], size) <==>
              (e.Chunk? ==> e.pair in Asked(events)) && |Dedup(Asked(events + [e]))| <= size
  {
    var more := events + [e];
    assert more[..|events|] == events;
    forall n | 0 <= n < |events|
      ensures more[n] == events[n] && more[..n] == events[..n]
    {
    }
  }

  lemma AfterAsk(events: seq<Event>, pair: Pair, size: nat)
    requires Timed(events) && Timed(events + [Ask(pair)]) && Served(events, size)
    ensures Dedup(Asked(events + [Ask(pair)])) == AddNew(Dedup(Asked(events)), pair)
    ensures forall p :: SamplesOf(events + [Ask(pair)], p) == SamplesOf(events, p)
    ensures Served(events + [Ask(pair)], size) <==> |AddNew(Dedup(Asked(events)), pair)| <= size
  {
    var more := events + [Ask(pair)];
    assert more[..|events|] == events;
    assert Asked(more)[..|Asked(events)|] == Asked(events);
    ServedAfter(events, Ask(pair), size);
  }

  lemma AfterChunk(events: seq<Event>, e: Event, size: nat)
    requires Timed(events) && Timed(events + [e]) && Served(events, size) && e.Chunk?
    ensures Asked(events + [e]) == Asked(events)
    ensures forall p :: SamplesOf(events + [e], p) == SamplesOf(events, p) + if p == e.pair
            then [Sample(e.sum, e.elapsed)] else []
    ensures Served(events + [e], size) <==> e.pair in Asked(events)
  {
    assert (events + [e])[..|events|] == events;
    ServedAfter(events, e, size);
  }

  lemma AveragesAfterAsk(alpha: real, events: seq<Event>, pair: Pair, size: nat)
    requires Timed(events) && Timed(events + [Ask(pair)]) && Served(events, size)
    ensures var pairs, avgs := Dedup(Asked(events)), AveragesOf(alpha, events, Dedup(Asked(events)));
            AveragesOf(alpha, events + [Ask(pair)], AddNew(pairs, pair)) == if pair in pairs then avgs else avgs + [0]
  {
    AfterAsk(events, pair, size);
    DedupMeaning(Asked(events));
    if pair !in Asked(events) {
      NoSamplesUnasked(events, size, pair);
    }
  }

  lemma AveragesAfterChunk(alpha: real, events: seq<Event>, e: Event, size: nat, pairs: seq<Pair>, i: nat)
    requires Timed(events) && Timed(events + [e]) && Served(events, size) && e.Chunk?
    requires Distinct(pairs) && i < |pairs| && pairs[i] == e.pair && e.sum > 0 && e.elapsed > 0.0
    ensures var avgs := AveragesOf(alpha, events, pairs);
            AveragesOf(alpha, events + [e], pairs) == avgs[i := Update(alpha, avgs[i], Sample(e.sum, e.elapsed))]
  {
    AfterChunk(events, e, size);
    var samples, x := SamplesOf(events, e.pair), Sample(e.sum, e.elapsed);
    assert (samples + [x])[..|samples|] == samples;
    forall k | 0 <= k < |pairs| && k != i
      ensures AveragesOf(alpha, events + [e], pairs)[k] == AveragesOf(alpha, events, pairs)[k]
    {
      assert SamplesOf(events + [e], pairs[k]) == SamplesOf(events, pairs[k]);
    }
  }

  /** A request; `ok` is false where the proxy would use -1 as an index. */
  method HandleAsk(t: ThruTable, alpha: real, pair: Pair, ghost events: seq<Event>) returns (ok: bool)
    requires Timed(events) && Timed(events + [Ask(pair)])
    requires Served(events, t.thruL.Length) && Averaged(t, alpha, events)
    modifies t, t.thruL
    ensures ok <==> Served(events + [Ask(pair)], t.thruL.Length)
    ensures ok ==> Averaged(t, alpha, events + [Ask(pair)])
    ensures forall k :: 0 <= k < t.thruL.Length ==>
            t.thruL[k] == old(t.thruL[k]) || (t.thruL[k] != null && fresh(t.thruL[k]))
  {
    AfterAsk(events, pair, t.thruL.Length);
    DedupMeaning(Asked(events));
    AveragesAfterAsk(alpha, events, pair, t.thruL.Length);
    var i := t.FindOrAddThru(pair.0, pair.1);
    ok := i != -1;
  }

  /** A chunk has come in. */
  method HandleChunk(t: ThruTable, alpha: real, e: Event, ghost events: seq<Event>) returns (ok: bool)
    requires Timed(events) && Timed(events + [e]) && e.Chunk?
    requires Served(events, t.thruL.Length) && Averaged(t, alpha, events)
    modifies set o: object | o in t.thruL[..]
    ensures ok <==> Served(events + [e], t.thruL.Length)
    ensures ok ==> Averaged(t, alpha, events + [e])
  {
    AfterChunk(events, e, t.thruL.Length);
    DedupMeaning(Asked(events));
    assert e in events + [e];
    var i := t.GetThruByAddrs(e.pair.0, e.pair.1);
    ok := i != -1;
    if ok {
      AveragesAfterChunk(alpha, events, e, t.thruL.Length, t.pairs, i);
      var tPut := t.UpdateThruput(e.sum, e.elapsed, alpha, i);
    }
  }

  /** Any run on a new table: until a chunk comes for a pair that was never asked for or the table is full, each
    * pair has one entry, and its average is that of its own samples in their order.
    */
  method RunTable(size: nat, alpha: real, events: seq<Event>) returns (t: ThruTable, ok: bool)
    requires Timed(events)
    ensures fresh(t) && t.thruL.Length == size && (ok <==> Served(events, size))
    ensures ok ==> Averaged(t, alpha, events)
  {
    t := new ThruTable(size);
    ok := true;
    assert events[..0] == [];
    for n := 0 to |events|
      invariant fresh(t) && fresh(t.thruL) && t.thruL.Length == size && ok
      invariant forall k :: 0 <= k < t.thruL.Length && t.thruL[k] != null ==> fresh(t.thruL[k])
      invariant Timed(events[..n]) && Served(events[..n], size) && Averaged(t, alpha, events[..n])
    {
      assert events[..n + 1] == events[..n] + [events[n]];
      match events[n] {
        case Ask(pair) =>
          ok := HandleAsk(t, alpha, pair, events[..n]);
        case Chunk(_, _, _) =>
          ok := HandleChunk(t, alpha, events[n], events[..n]);
      }
      if !ok {
        if Served(events, size) {
          ServedBefore(events, n + 1, size);
        }
        return;
      }
    }
    assert events[..|events|] == events;
  }
}
