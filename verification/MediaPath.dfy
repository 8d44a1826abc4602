/** The rewriting of the bitrate in the path of a video segment (src/media.c). */
module MediaPaths {
  import opened Options

  const VOD := "/vod/"
  const SEG := "Seg"
  const FRAG := "Frag"

  // ---- searching ----

  /** `pat` occurs in `s` at `i`. */
  predicate Occurs(s: string, pat: string, i: nat) {
    i + |pat| <= |s| && s[i..i + |pat|] == pat
  }

  /** `strstr`: the first occurrence at or after `i`. */
  function StrStr(s: string, pat: string, i: nat): (r: Option<nat>)
    ensures match r
            case None => forall j :: i <= j ==> !Occurs(s, pat, j)
            case Some(k) => i <= k && Occurs(s, pat, k) && forall j :: i <= j < k ==> !Occurs(s, pat, j)
    decreases |s| - i
  {
    if |s| < i + |pat| then None else if Occurs(s, pat, i) then Some(i) else if i == |s| then None
      else StrStr(s, pat, i + 1)
  }

  function Find(s: string, pat: string): (r: Option<nat>) {
    StrStr(s, pat, 0)
  }

  ghost predicate Contains(s: string, pat: string) {
    exists i: nat :: Occurs(s, pat, i)
  }

  lemma FindIs(s: string, pat: string, k: nat)
    requires Occurs(s, pat, k) && forall j :: 0 <= j < k ==> !Occurs(s, pat, j)
    ensures Find(s, pat) == Some(k)
  {
  }

  // ---- numbers ----

  function Digit(d: nat): char
    requires d < 10
  {
    '0' + d as char
  }

  function Digits(n: nat): (s: string)
    ensures s != [] && forall c :: c in s ==> '0' <= c <= '9'
  {
    if n < 10 then [Digit(n)] else Digits(n / 10) + [Digit(n % 10)]
  }

  /** `sprintf("%d")` */
  function Decimal(r: int): (s: string)
    ensures s != [] && forall c :: c in s ==> c == '-' || '0' <= c <= '9'
  {
    if r < 0 then "-" + Digits(-r) else Digits(r)
  }

  function ValueOf(s: string): int {
    if s == [] then 0 else ValueOf(s[..|s| - 1]) * 10 + (s[|s| - 1] as int - '0' as int)
  }

  lemma {:induction false} DigitsValue(n: nat)
    ensures ValueOf(Digits(n)) == n
  {
    if n >= 10 {
      DigitsValue(n / 10);
      assert Digits(n)[..|Digits(n)| - 1] == Digits(n / 10);
    } else {
      assert Digits(n)[..0] == [];
    }
  }

  /** Reading one more digit, in base ten. */
  lemma ValueOfMore(s: string, d: nat)
    requires d < 10
    ensures ValueOf(s + ["0123456789"[d]]) == 10 * ValueOf(s) + d
  {
    var more := s + ["0123456789"[d]];
    assert more[..|more| - 1] == s;
  }

  lemma {:induction false} DigitsStart(n: nat)
    ensures Digits(n)[0] == '0' ==> n == 0
  {
    if n >= 10 {
      DigitsStart(n / 10);
    }
  }

  /** The decimal of a rate: its digits from the first that counts, behind a sign if it is negative. */
  lemma DecimalMeaning(r: int)
    ensures r >= 0 ==> ValueOf(Decimal(r)) == r && (Decimal(r)[0] == '0' ==> r == 0 && |Decimal(r)| == 1)
    ensures r < 0 ==> Decimal(r) == "-" + Decimal(-r)
    ensures forall k :: 0 <= k < |Decimal(r)| && (r >= 0 || k > 0) ==> Decimal(r)[k] in "0123456789"
  {
    var n: nat := if r < 0 then -r else r;
    DigitsValue(n);
    DigitsStart(n);
    forall k | 0 <= k < |Digits(n)|
      ensures Digits(n)[k] in "0123456789"
    {
      assert Digits(n)[k] in Digits(n);
      DigitIsListed(Digits(n)[k]);
    }
  }

  lemma DigitIsListed(c: char)
    requires '0' <= c <= '9'
    ensures c in "0123456789"
  {
    var s := "0123456789";
    assert s[c as int - '0' as int] == c;
  }

  // ---- rewriting ----

  /** The source needs "/vod/" wherever it has a segment to rewrite. */
  predicate Rewritable(path: string) {
    Find(path, SEG).Some? ==> Find(path, VOD).Some?
  }

  /** `modi_path`: what stands between the first "/vod/" and the first "Seg" becomes the rate. */
  function ModiPath(path: string, rate: int): string
    requires Rewritable(path)
  {
    match Find(path, SEG)
    case None => path
    case Some(seg) => path[..Find(path, VOD).value + |VOD|] + Decimal(rate) + path[seg..]
  }

  function IsVideo(path: string): bool {
    Find(path, SEG).Some? && Find(path, FRAG).Some?
  }

  /** A video's path has both "Seg" and "Frag" in it, in whatever places. */
  lemma IsVideoMeaning(path: string)
    ensures IsVideo(path) <==>
              (exists i: nat :: Occurs(path, "Seg", i)) && exists i: nat :: Occurs(path, "Frag", i)
  {
    FindContains(path, SEG);
    FindContains(path, FRAG);
  }

  ghost predicate FirstAt(s: string, pat: string, i: nat) {
    Occurs(s, pat, i) && forall j: nat :: j < i ==> !Occurs(s, pat, j)
  }

  /** What rewriting does to any path, in terms of the first places of "/vod/" and "Seg". */
  lemma ModiPathMeaning(path: string, rate: int, v: nat, s: nat)
    requires FirstAt(path, "/vod/", v) && FirstAt(path, "Seg", s)
    ensures Rewritable(path) && ModiPath(path, rate) == path[..v + 5] + Decimal(rate) + path[s..]
  {
    FindIs(path, VOD, v);
    FindIs(path, SEG, s);
  }

  /** Without "Seg" the path stays. */
  lemma ModiPathOther(path: string, rate: int)
    requires forall i: nat :: !Occurs(path, "Seg", i)
    ensures Rewritable(path) && ModiPath(path, rate) == path
  {
  }

  /** The usual form: "/vod/" comes before "Seg". */
  predicate Ordered(path: string) {
    Find(path, VOD).Some? && Find(path, SEG).Some? && Find(path, VOD).value < Find(path, SEG).value
  }

  // ---- occurrences in a path put together from parts ----

  lemma AtPrefix(s: string, n: nat, pat: string, i: nat)
    requires n <= |s|
    ensures Occurs(s[..n], pat, i) <==> Occurs(s, pat, i) && i + |pat| <= n
  {
    if i + |pat| <= n {
      assert s[..n][i..i + |pat|] == s[i..i + |pat|];
    }
  }

  lemma AtSuffix(s: string, n: nat, pat: string, i: nat)
    requires n <= |s|
    ensures Occurs(s[n..], pat, i) <==> Occurs(s, pat, n + i)
  {
    if n + i + |pat| <= |s| {
      assert s[n..][i..i + |pat|] == s[n + i..n + i + |pat|];
    }
  }

  /** No character of the pattern can be one of a number. */
  ghost predicate NoDigits(pat: string) {
    pat != [] && forall c :: c in pat ==> !(c == '-' || '0' <= c <= '9')
  }

  ghost predicate IsNumber(num: string) {
    num != [] && forall c :: c in num ==> c == '-' || '0' <= c <= '9'
  }

  /** A pattern without digits occurs on one side of a number or the other. */
  lemma AroundNumber(a: string, num: string, b: string, pat: string, i: nat)
    requires IsNumber(num) && NoDigits(pat)
    ensures Occurs(a + num + b, pat, i) <==>
              Occurs(a, pat, i) || (i >= |a| + |num| && Occurs(b, pat, i - |a| - |num|))
  {
    var s := a + num + b;
    assert s[..|a|] == a && s[|a| + |num|..] == b;
    AtPrefix(s, |a|, pat, i);
    if i >= |a| + |num| {
      AtSuffix(s, |a| + |num|, pat, i - |a| - |num|);
    } else if |a| < i + |pat| <= |s| {
      var k := if i < |a| then |a| else i;
      assert s[k] == s[i..i + |pat|][k - i];
      assert s[k] in num && pat[k - i] in pat;
    }
  }

  lemma PatternsHaveNoDigits()
    ensures NoDigits(VOD) && NoDigits(SEG) && NoDigits(FRAG)
  {
  }

  /** "/vod/" and "Seg" have no letter in common, so they do not overlap. */
  lemma VodAndSegApart(path: string, v: nat, s: nat)
    requires Occurs(path, VOD, v) && Occurs(path, SEG, s)
    ensures v < s ==> v + |VOD| <= s
    ensures s < v ==> s + |SEG| <= v
  {
    var vod, seg := path[v..v + |VOD|], path[s..s + |SEG|];
    assert path[v] == vod[0] == '/';
    assert path[v + 1] == vod[1] && path[v + 2] == vod[2] && path[v + 3] == vod[3] && path[v + 4] == vod[4] == '/';
    assert path[s] == seg[0] == 'S' && path[s + 1] == seg[1] && path[s + 2] == seg[2] == 'g';
    assert forall c :: c in vod ==> c != 'S';
    assert forall c :: c in seg ==> c != '/';
    assert forall k :: 0 <= k < |VOD| ==> vod[k] in vod;
    assert forall k :: 0 <= k < |SEG| ==> seg[k] in seg;
  }

  // ---- the usual order: "/vod/" before "Seg" ----

  ghost function Before(path: string): string
    requires Find(path, VOD).Some?
  {
    path[..Find(path, VOD).value + |VOD|]
  }

  ghost function After(path: string): string
    requires Find(path, SEG).Some?
  {
    path[Find(path, SEG).value..]
  }

  /** A path put together from a head that ends in the first "/vod/", a number, and a tail that starts with
    * a "Seg": these are its first ones.
    */
  lemma FirstOnes(a: string, num: string, b: string, v: nat)
    requires IsNumber(num) && v + |VOD| == |a| && Occurs(a, VOD, v) && Occurs(b, SEG, 0)
    requires forall j: nat :: j < v ==> !Occurs(a, VOD, j)
    requires forall j: nat :: !Occurs(a, SEG, j)
    ensures Find(a + num + b, VOD) == Some(v) && Find(a + num + b, SEG) == Some(|a| + |num|)
  {
    var p := a + num + b;
    PatternsHaveNoDigits();
    forall j: nat | j <= v
      ensures Occurs(p, VOD, j) <==> Occurs(a, VOD, j)
    {
      AroundNumber(a, num, b, VOD, j);
    }
    forall j: nat | j <= |a| + |num|
      ensures Occurs(p, SEG, j) <==> j == |a| + |num|
    {
      AroundNumber(a, num, b, SEG, j);
    }
    FindIs(p, VOD, v);
    FindIs(p, SEG, |a| + |num|);
  }

  lemma PartsOfPath(path: string)
    requires Ordered(path)
    ensures var v, a, b := Find(path, VOD).value, Before(path), After(path);
            && |a| == v + |VOD| && Occurs(a, VOD, v) && Occurs(b, SEG, 0)
            && (forall j: nat :: j < v ==> !Occurs(a, VOD, j))
            && (forall j: nat :: !Occurs(a, SEG, j))
  {
    var v, s, a := Find(path, VOD).value, Find(path, SEG).value, Before(path);
    VodAndSegApart(path, v, s);
    forall j: nat
      ensures Occurs(a, VOD, j) <==> Occurs(path, VOD, j) && j + |VOD| <= |a|
      ensures Occurs(a, SEG, j) <==> Occurs(path, SEG, j) && j + |SEG| <= |a|
    {
      AtPrefix(path, |a|, VOD, j);
      AtPrefix(path, |a|, SEG, j);
    }
    AtSuffix(path, s, SEG, 0);
  }

  /** The rewritten path keeps what stands up to "/vod/" and from "Seg" on, has the rate in between, and
    * is again in the usual order.
    */
  lemma RewrittenParts(path: string, rate: int)
    requires Ordered(path)
    ensures var p := ModiPath(path, rate);
            && p == Before(path) + Decimal(rate) + After(path)
            && Ordered(p) && Before(p) == Before(path) && After(p) == After(path)
            && Find(p, SEG) == Some(|Before(path)| + |Decimal(rate)|)
  {
    var a, num, b := Before(path), Decimal(rate), After(path);
    PartsOfPath(path);
    FirstOnes(a, num, b, Find(path, VOD).value);
    assert (a + num + b)[..|a|] == a && (a + num + b)[|a| + |num|..] == b;
  }

  /** Rewriting overwrites: only the last rate counts. */
  lemma RewriteOverwrites(path: string, r1: int, r2: int)
    requires Ordered(path)
    ensures Rewritable(ModiPath(path, r1)) && ModiPath(ModiPath(path, r1), r2) == ModiPath(path, r2)
  {
    RewrittenParts(path, r1);
  }

  /** The rate can be read back from the rewritten path. */
  lemma RateReadable(path: string, rate: nat)
    requires Ordered(path)
    ensures var p := ModiPath(path, rate);
            Find(p, SEG).Some? && |Before(path)| <= Find(p, SEG).value &&
              ValueOf(p[|Before(path)|..Find(p, SEG).value]) == rate
  {
    RewrittenParts(path, rate);
    var a := Before(path);
    assert (a + Decimal(rate) + After(path))[|a|..|a| + |Decimal(rate)|] == Decimal(rate);
    DigitsValue(rate);
  }

  // ---- "Seg" before "/vod/" ----

  /** A first occurrence that lies within a common head is first in both strings. */
  lemma FirstInHead(s: string, p: string, n: nat, pat: string, k: nat)
    requires n <= |s| && n <= |p| && s[..n] == p[..n] && k + |pat| <= n && Find(s, pat) == Some(k)
    ensures Find(p, pat) == Some(k)
  {
    forall j: nat | j <= k
      ensures Occurs(p, pat, j) <==> Occurs(s, pat, j)
    {
      AtPrefix(p, n, pat, j);
      AtPrefix(s, n, pat, j);
    }
    FindIs(p, pat, k);
  }

  lemma SegFirst(path: string)
    requires Rewritable(path) && Find(path, SEG).Some? && !Ordered(path)
    ensures Find(path, SEG).value + |SEG| <= Find(path, VOD).value
  {
    var v, s := Find(path, VOD).value, Find(path, SEG).value;
    assert path[v] == path[v..v + |VOD|][0] == '/' && path[s] == path[s..s + |SEG|][0] == 'S';
    VodAndSegApart(path, v, s);
  }

  /** In the other order each rewriting leaves the path's head in place twice, so it grows and rates pile up. */
  lemma RewriteGrows(path: string, rate: int)
    requires Rewritable(path) && Find(path, SEG).Some? && !Ordered(path)
    ensures var p := ModiPath(path, rate);
            Find(p, SEG) == Find(path, SEG) && Find(p, VOD) == Find(path, VOD) && |p| > |path|
  {
    var v, s := Find(path, VOD).value, Find(path, SEG).value;
    SegFirst(path);
    var n, p := v + |VOD|, ModiPath(path, rate);
    assert p[..n] == path[..n];
    FirstInHead(path, p, n, VOD, v);
    FirstInHead(path, p, n, SEG, s);
  }

  /** Rewriting twice is rewriting once exactly when there is nothing to rewrite or the order is the usual one. */
  lemma OverwritesExactly(path: string, r1: int, r2: int)
    requires Rewritable(path)
    ensures Rewritable(ModiPath(path, r1))
    ensures ModiPath(ModiPath(path, r1), r2) == ModiPath(path, r2) <==> Find(path, SEG) == None || Ordered(path)
  {
    if Find(path, SEG) == None {
    } else if Ordered(path) {
      RewriteOverwrites(path, r1, r2);
    } else {
      RewriteGrows(path, r1);
      var p := ModiPath(path, r1);
      assert |ModiPath(p, r2)| == |ModiPath(path, r2)| + (|p| - |path|);
    }
  }

  const SEG_FIRST := "/Seg-Frag/vod/"

  lemma SegFirstParts()
    ensures Find(SEG_FIRST, SEG) == Some(1) && Find(SEG_FIRST, VOD) == Some(9) && IsVideo(SEG_FIRST)
  {
    var path := SEG_FIRST;
    assert Occurs(path, SEG, 1) && Occurs(path, FRAG, 5) && Occurs(path, VOD, 9);
    assert path[0] != 'S';
    FindIs(path, SEG, 1);
    forall j: nat | j < 9
      ensures !Occurs(path, VOD, j)
    {
      assert path[j..j + |VOD|][1] == path[j + 1] != VOD[1];
    }
    FindIs(path, VOD, 9);
    FindContains(path, FRAG);
  }

  /** In the other order both rates are in the path afterwards. */
  lemma BothRatesRemain(path: string, r1: int, r2: int)
    requires Rewritable(path) && Find(path, SEG).Some? && !Ordered(path)
    ensures var head, tail := Before(path), After(path);
            && ModiPath(path, r1) == head + Decimal(r1) + tail
            && Rewritable(ModiPath(path, r1))
            && ModiPath(ModiPath(path, r1), r2) ==
              head + Decimal(r2) + (head + Decimal(r1) + tail)[Find(path, SEG).value..]
  {
    RewriteGrows(path, r1);
    var head, num, tail := Before(path), Decimal(r1), After(path);
    HeadKept(head, num, tail);
  }

  lemma HeadKept(head: string, num: string, tail: string)
    ensures (head + num + tail)[..|head|] == head
  {
  }

  /** A video's path on which a second rewriting leaves the rate of the first in place. */
  lemma OverwriteCanFail()
    ensures IsVideo(SEG_FIRST) && Rewritable(SEG_FIRST) && Rewritable(ModiPath(SEG_FIRST, 1))
    ensures ModiPath(ModiPath(SEG_FIRST, 1), 2) == SEG_FIRST + "2" + (SEG_FIRST + "1" + SEG_FIRST[1..])[1..]
    ensures ModiPath(ModiPath(SEG_FIRST, 1), 2) != ModiPath(SEG_FIRST, 2)
  {
    SegFirstParts();
    OneDigit(1);
    OneDigit(2);
    assert SEG_FIRST[..14] == SEG_FIRST;
    BothRatesRemain(SEG_FIRST, 1, 2);
    OverwritesExactly(SEG_FIRST, 1, 2);
  }

  lemma OneDigit(d: nat)
    requires d < 10
    ensures Decimal(d) == [Digit(d)]
  {
  }

  // ---- is it still a video? ----

  lemma FindContains(s: string, pat: string)
    ensures Find(s, pat).Some? <==> Contains(s, pat)
  {
  }

  lemma ContainsAroundNumber(a: string, num: string, b: string, pat: string)
    requires IsNumber(num) && NoDigits(pat)
    ensures Contains(a + num + b, pat) <==> Contains(a, pat) || Contains(b, pat)
  {
    var p := a + num + b;
    if i: nat :| Occurs(p, pat, i) {
      AroundNumber(a, num, b, pat, i);
    }
    if i: nat :| Occurs(a, pat, i) {
      AroundNumber(a, num, b, pat, i);
      assert Occurs(p, pat, i);
    }
    if i: nat :| Occurs(b, pat, i) {
      AroundNumber(a, num, b, pat, |a| + |num| + i);
      assert Occurs(p, pat, |a| + |num| + i);
    }
  }

  lemma ContainsPart(s: string, n: nat, pat: string)
    requires n <= |s|
    ensures Contains(s[..n], pat) || Contains(s[n..], pat) ==> Contains(s, pat)
  {
    if i: nat :| Occurs(s[..n], pat, i) {
      AtPrefix(s, n, pat, i);
    }
    if i: nat :| Occurs(s[n..], pat, i) {
      AtSuffix(s, n, pat, i);
    }
  }

  /** What `isVideo` says of a rewritten path: its "Frag" has to lie outside the piece that was replaced. */
  lemma IsVideoRewritten(path: string, rate: int)
    requires Rewritable(path) && Find(path, SEG).Some?
    ensures IsVideo(ModiPath(path, rate)) <==> Contains(Before(path), FRAG) || Contains(After(path), FRAG)
  {
    if Ordered(path) {
      RewrittenParts(path, rate);
    } else {
      RewriteGrows(path, rate);
    }
    var p := ModiPath(path, rate);
    assert Find(p, SEG).Some?;
    PatternsHaveNoDigits();
    ContainsAroundNumber(Before(path), Decimal(rate), After(path), FRAG);
    FindContains(p, FRAG);
  }

  lemma IsVideoBefore(path: string)
    requires Rewritable(path) && Find(path, SEG).Some?
    ensures IsVideo(path) <==> Contains(path, FRAG)
    ensures Contains(Before(path), FRAG) || Contains(After(path), FRAG) ==> Contains(path, FRAG)
  {
    FindContains(path, FRAG);
    ContainsPart(path, |Before(path)|, FRAG);
    ContainsPart(path, Find(path, SEG).value, FRAG);
  }

  /** So its answer survives exactly when the path had no "Frag" or has one outside that piece ... */
  lemma IsVideoKeptExactly(path: string, rate: int)
    requires Rewritable(path) && Find(path, SEG).Some?
    ensures IsVideo(ModiPath(path, rate)) == IsVideo(path) <==>
              (Contains(path, FRAG) ==> Contains(Before(path), FRAG) || Contains(After(path), FRAG))
  {
    IsVideoRewritten(path, rate);
    IsVideoBefore(path);
  }

  /** ... which is always so when "Seg" comes before "/vod/", where nothing is lost. */
  lemma IsVideoKeptInOtherOrder(path: string, rate: int)
    requires Rewritable(path) && !Ordered(path)
    ensures IsVideo(ModiPath(path, rate)) == IsVideo(path)
  {
    if Find(path, SEG).Some? {
      IsVideoRewritten(path, rate);
      IsVideoBefore(path);
      NothingLost(path);
    }
  }

  lemma NothingLost(path: string)
    requires Rewritable(path) && Find(path, SEG).Some? && !Ordered(path)
    ensures Contains(path, FRAG) ==> Contains(Before(path), FRAG) || Contains(After(path), FRAG)
  {
    SegFirst(path);
    if i: nat :| Occurs(path, FRAG, i) {
      FragOnOneSide(path, Find(path, VOD).value, Find(path, SEG).value, i);
    }
  }

  lemma FragOnOneSide(path: string, v: nat, s: nat, i: nat)
    requires Occurs(path, VOD, v) && s + |SEG| <= v && Occurs(path, FRAG, i)
    ensures Contains(path[..v + |VOD|], FRAG) || Contains(path[s..], FRAG)
  {
    AtPrefix(path, v + |VOD|, FRAG, i);
    if i >= s {
      AtSuffix(path, s, FRAG, i - s);
      assert Occurs(path[s..], FRAG, i - s);
    } else {
      assert Occurs(path[..v + |VOD|], FRAG, i);
    }
  }

  /** A path whose only "Frag" is replaced stops being a video. */
  lemma IsVideoCanChange()
    ensures var path := "/vod/FragSeg1";
            Ordered(path) && IsVideo(path) && !IsVideo(ModiPath(path, 100))
  {
    var path := "/vod/FragSeg1";
    assert Occurs(path, VOD, 0) && Occurs(path, FRAG, 5) && Occurs(path, SEG, 9);
    FindIs(path, VOD, 0);
    forall j: nat | j < 9
      ensures !Occurs(path, SEG, j)
    {
      assert path[j] != 'S';
    }
    FindIs(path, SEG, 9);
    assert Before(path) == "/vod/" && After(path) == "Seg1";
    NoFrag(Before(path));
    NoFrag(After(path));
    assert Contains(path, FRAG);
    FindContains(path, FRAG);
    IsVideoKeptExactly(path, 100);
  }

  lemma NoFrag(s: string)
    requires 'F' !in s
    ensures !Contains(s, FRAG)
  {
    forall i: nat
      ensures !Occurs(s, FRAG, i)
    {
      if i + |FRAG| <= |s| {
        assert s[i..i + |FRAG|][0] == s[i] && s[i] in s;
      }
    }
  }

  // ---- in place ----

  /** The C string in a buffer. */
  function Text(b: seq<char>): (s: string)
    ensures '\0' !in s && s <= b
    ensures |s| < |b| ==> b[|s|] == '\0'
  {
    if b == [] || b[0] == '\0' then [] else [b[0]] + Text(b[1..])
  }

  lemma {:induction false} TextOf(s: string, rest: seq<char>)
    requires '\0' !in s
    ensures Text(s + ['\0'] + rest) == s
  {
    var b := s + ['\0'] + rest;
    if s != [] {
      assert b[1..] == s[1..] + ['\0'] + rest;
      TextOf(s[1..], rest);
    }
  }

  /** The search loop of `strstr`; -1 for NULL. */
  method IndexOf(s: string, pat: string) returns (i: int)
    ensures i == match Find(s, pat) case None => -1 case Some(k) => k
  {
    i := 0;
    while i + |pat| <= |s|
      invariant 0 <= i && Find(s, pat) == StrStr(s, pat, i)
    {
      if Occurs(s, pat, i) {
        return;
      }
      i := i + 1;
    }
    i := -1;
  }

  /** `strcpy` of a whole string into a buffer. */
  method CopyString(buf: array<char>, s: string)
    requires |s| < buf.Length && '\0' !in s
    modifies buf
    ensures Text(buf[..]) == s
  {
    for i := 0 to |s|
      invariant buf[..i] == s[..i]
    {
      buf[i] := s[i];
    }
    buf[|s|] := '\0';
    assert buf[..] == s + ['\0'] + buf[|s| + 1..];
    TextOf(s, buf[|s| + 1..]);
  }

  lemma RewrittenText(path: string, rate: int)
    requires Rewritable(path) && '\0' !in path
    ensures '\0' !in ModiPath(path, rate)
  {
  }

  /** `modi_path`: rewrites the path in its buffer and copies it to the connection's current file.  The
    * buffers are long enough for the result.
    */
  method RewriteInPlace(path: array<char>, rate: int, curFile: array<char>)
    requires path != curFile && Rewritable(Text(path[..]))
    requires |ModiPath(Text(path[..]), rate)| < path.Length && |ModiPath(Text(path[..]), rate)| < curFile.Length
    modifies path, curFile
    ensures Text(path[..]) == ModiPath(old(Text(path[..])), rate)
    ensures if Find(old(Text(path[..])), SEG).Some? then Text(curFile[..]) == Text(path[..])
            else curFile[..] == old(curFile[..])
  {
    var text := Text(path[..]);
    var vodIndex := IndexOf(text, VOD);
    var segIndex := IndexOf(text, SEG);
    if segIndex != -1 {
      var buffer := text[..vodIndex + |VOD|];
      buffer := buffer + Decimal(rate);
      buffer := buffer + text[segIndex..];
      RewrittenText(text, rate);
      CopyString(path, buffer);
      CopyString(curFile, buffer);
    }
  }
}
