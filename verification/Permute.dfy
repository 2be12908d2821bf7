/** gcd and permute_args of compat/getopt_long.c: two adjacent blocks of an array
    are exchanged in place, cycle by cycle. */
module Permute {
  import opened Arith

  /** `g` divides both, and is a combination of them: so every common divisor
      divides `g`. */
  ghost predicate IsGcd(a: int, b: int, g: int, x: int, y: int) {
    g > 0 && a % g == 0 && b % g == 0 && x * a + y * b == g
  }

  lemma DivideSum(a: int, q: int, b: int, g: int)
    requires g > 0 && a % g == 0 && b % g == 0
    ensures (a * q + b) % g == 0
  {
    var u, v := a / g, b / g;
    assert a * q + b == g * (u * q + v);
    Multiple(g, u * q + v);
  }

  lemma IsGreatest(a: int, b: int, g: int, x: int, y: int, d: int)
    requires IsGcd(a, b, g, x, y) && d > 0 && a % d == 0 && b % d == 0
    ensures g % d == 0 && d <= g
  {
    var u, v := a / d, b / d;
    assert g == d * (x * u + y * v);
    Multiple(d, x * u + y * v);
    assert x * u + y * v > 0;
  }

  /** Euclid's loop: it returns the greatest common divisor. */
  method Gcd(a0: nat, b0: nat) returns (g: nat, ghost x: int, ghost y: int)
    requires b0 > 0
    ensures IsGcd(a0, b0, g, x, y)
    ensures forall d | d > 0 && a0 % d == 0 && b0 % d == 0 :: d <= g
  {
    var a, b := a0, b0;
    var c := a % b;
    ghost var u, v := 1, 0;
    x, y := 0, 1;
    while c != 0
      invariant 0 <= c < b && c == a % b
      invariant u * a0 + v * b0 == a && x * a0 + y * b0 == b
      invariant forall d | d > 0 && a % d == 0 && b % d == 0 :: a0 % d == 0 && b0 % d == 0
      decreases b
    {
      ghost var q := a / b;
      Remainder(a0, b0, a, b, c, q, u, v, x, y);
      u, v, x, y := x, y, u - q * x, v - q * y;
      a := b;
      b := c;
      c := a % b;
    }
    g := b;
    forall d | d > 0 && a0 % d == 0 && b0 % d == 0 ensures d <= g {
      IsGreatest(a0, b0, g, x, y, d);
    }
  }

  lemma Remainder(a0: int, b0: int, a: int, b: int, c: int, q: int, u: int, v: int, x: int, y: int)
    requires a == b * q + c && u * a0 + v * b0 == a && x * a0 + y * b0 == b
    ensures (u - q * x) * a0 + (v - q * y) * b0 == c
    ensures forall d | d > 0 && b % d == 0 && c % d == 0 :: a % d == 0
  {
    assert (u - q * x) * a0 == u * a0 - q * (x * a0) && (v - q * y) * b0 == v * b0 - q * (y * b0);
    assert q * (x * a0 + y * b0) == q * (x * a0) + q * (y * b0);
    forall d | d > 0 && b % d == 0 && c % d == 0 ensures a % d == 0 {
      DivideSum(b, q, c, d);
    }
  }

  // ----- The cycles of  pos -> pos + nopts mod n  from `start` -----

  /** The place reached after `k` steps. */
  function Place(start: int, nopts: int, n: int, k: int): int
    requires n > 0
  {
    (start + k * nopts) % n
  }

  lemma PlaceStep(start: int, nopts: int, n: int, k: int)
    requires 0 <= nopts <= n && n > 0
    ensures var p := Place(start, nopts, n, k);
      0 <= p < n && Place(start, nopts, n, k + 1) == if p >= n - nopts then p - (n - nopts) else p + nopts
  {
    var t, p := start + k * nopts, Place(start, nopts, n, k);
    var q := t / n;
    assert start + (k + 1) * nopts == n * q + (p + nopts);
    if p >= n - nopts {
      assert n * q + (p + nopts) == n * (q + 1) + (p - (n - nopts));
      DivMod(n, q + 1, p - (n - nopts));
    } else {
      DivMod(n, q, p + nopts);
    }
  }

  /** What is known of the two block lengths: `g` is their greatest common
      divisor, and there are `g` cycles of `len` places each. */
  ghost predicate Cycles(nnonopts: int, nopts: int, g: int, x: int, y: int, len: int) {
    0 <= nnonopts && 0 < nopts && IsGcd(nnonopts, nopts, g, x, y) && nnonopts + nopts == g * len
  }

  /** With everything divided by `g`, a step has an inverse modulo `len`. */
  lemma Inverse(nnonopts: int, nopts: int, g: int, x: int, y: int, len: int) returns (v: int, w: int)
    requires Cycles(nnonopts, nopts, g, x, y, len)
    ensures nopts == g * v && x * len + w * v == 1 && len > 0
  {
    var u := nnonopts / g;
    v, w := nopts / g, y - x;
    assert nnonopts == g * u && nopts == g * v;
    PullOut(g, x, u, y, v);
    Cancel(g, x * u + y * v, 1);
    PullOut(g, 1, u, 1, v);
    Cancel(g, u + v, len);
    assert x * (u + v) == x * u + x * v;
  }

  lemma PullOut(g: int, x: int, u: int, y: int, v: int)
    ensures x * (g * u) + y * (g * v) == g * (x * u + y * v)
  {}

  lemma Cancel(g: int, a: int, b: int)
    requires g > 0 && g * a == g * b
    ensures a == b
  {
    assert g * (a - b) == 0;
    SmallMultiple(g, a - b);
  }

  /** Within a cycle no place comes twice. */
  lemma PlacesDiffer(nnonopts: int, nopts: int, g: int, x: int, y: int, len: int, start: int, j: int, k: int)
    requires Cycles(nnonopts, nopts, g, x, y, len) && 0 <= j < k < len
    ensures Place(start, nopts, nnonopts + nopts, j) != Place(start, nopts, nnonopts + nopts, k)
  {
    var n := nnonopts + nopts;
    var v, w := Inverse(nnonopts, nopts, g, x, y, len);
    if Place(start, nopts, n, j) == Place(start, nopts, n, k) {
      var d, q := k - j, (start + k * nopts) / n - (start + j * nopts) / n;
      assert d * nopts == n * q;
      assert g * (v * d) == d * nopts && g * (len * q) == n * q;
      Cancel(g, v * d, len * q);
      StepsTooFew(len, v, w, x, d, q);
    }
  }

  /** A number of steps that comes back is a multiple of `len`. */
  lemma StepsTooFew(len: int, v: int, w: int, x: int, d: int, q: int)
    requires x * len + w * v == 1 && v * d == len * q
    ensures d == len * (x * d + w * q)
    ensures !(0 < d < len)
  {
    assert d == (x * len + w * v) * d == x * len * d + w * (v * d);
    assert len * (x * d + w * q) == x * len * d + w * (len * q);
    if 0 < d < len {
      SmallMultiple(len, x * d + w * q);
    }
  }

  /** After `len` steps a cycle is closed. */
  lemma PlacesClose(nnonopts: int, nopts: int, g: int, x: int, y: int, len: int, start: int)
    requires Cycles(nnonopts, nopts, g, x, y, len) && 0 <= start < nnonopts + nopts
    ensures Place(start, nopts, nnonopts + nopts, len) == start
  {
    var n := nnonopts + nopts;
    var v, w := Inverse(nnonopts, nopts, g, x, y, len);
    assert len * nopts == n * v;
    DivMod(n, v, start);
  }

  /** The cycle reaches every place that is the same modulo `g`. */
  lemma PlacesReach(nnonopts: int, nopts: int, g: int, x: int, y: int, len: int, start: int, place: int) returns (k: int)
    requires Cycles(nnonopts, nopts, g, x, y, len) && 0 <= place < nnonopts + nopts && (place - start) % g == 0
    ensures 0 <= k < len && Place(start, nopts, nnonopts + nopts, k) == place
  {
    var n := nnonopts + nopts;
    var v, w := Inverse(nnonopts, nopts, g, x, y, len);
    var q := (place - start) / g;
    k := (q * w) % len;
    var z := q * x + ((q * w) / len) * v;
    Solve(len, v, w, x, q, (q * w) / len, k);
    Scale(g, v, k, q, len, z);
    Wrap(start + k * nopts, n, z, place);
  }

  lemma Wrap(t: int, n: int, z: int, place: int)
    requires 0 <= place < n && t == place - n * z
    ensures t % n == place
  {
    DivMod(n, -z, place);
  }

  lemma Scale(g: int, v: int, k: int, q: int, len: int, z: int)
    requires k * v == q - len * z
    ensures k * (g * v) == g * q - (g * len) * z
  {
    assert k * (g * v) == g * (k * v) == g * (q - len * z);
    assert (g * len) * z == g * (len * z);
  }

  lemma Solve(len: int, v: int, w: int, x: int, q: int, r: int, k: int)
    requires x * len + w * v == 1 && k == q * w - len * r
    ensures k * v == q - len * (q * x + r * v)
  {
    assert k * v == q * w * v - len * r * v;
    assert q * w * v == q * (1 - x * len) == q - len * (q * x);
    assert len * (q * x + r * v) == len * (q * x) + len * r * v;
  }

  // ----- permute_args -----

  /** The two blocks of s[lo..hi], split at `mid`, exchanged. */
  function Exchanged<T>(s: seq<T>, lo: int, mid: int, hi: int): seq<T>
    requires 0 <= lo <= mid <= hi <= |s|
  {
    s[..lo] + s[mid..hi] + s[lo..mid] + s[hi..]
  }

  /** Where the element for index `i` comes from. */
  function Source(i: int, start: int, end: int, optEnd: int): int {
    if i < start + optEnd - end then i + end - start else i - (optEnd - end)
  }

  /** A cycle stays in one residue class modulo `g`. */
  lemma PlaceResidue(nnonopts: int, nopts: int, g: int, x: int, y: int, len: int, start: int, k: int)
    requires Cycles(nnonopts, nopts, g, x, y, len)
    ensures Place(start, nopts, nnonopts + nopts, k) % g == start % g
  {
    var n, v := nnonopts + nopts, nopts / g;
    var t, c := start + k * nopts, start / g;
    var p, q := Place(start, nopts, n, k), t / n;
    assert nopts == g * v && n * q == g * (len * q) && k * nopts == g * (k * v);
    assert p == t - n * q == g * (c + k * v - len * q) + start % g by { assert start == g * c + start % g; }
    DivMod(g, c + k * v - len * q, start % g);
  }

  /** The indices of one cycle in turn, back to the first one. */
  ghost predicate IsCycle(ps: seq<int>, start: int, end: int, optEnd: int) {
    && |ps| > 1 && ps[0] == ps[|ps| - 1]
    && (forall k | 0 <= k < |ps| :: start <= ps[k] < optEnd)
    && (forall k | 0 < k < |ps| :: ps[k - 1] == Source(ps[k], start, end, optEnd))
    && (forall j, k | 0 <= j < k < |ps| - 1 :: ps[j] != ps[k])
  }

  /** The elements at `done` have been exchanged, and no other. */
  ghost predicate Moved<T>(was: seq<T>, now: seq<T>, start: int, end: int, optEnd: int, done: set<int>)
    requires 0 <= start <= end < optEnd <= |was|
  {
    && |now| == |was|
    && (forall i | 0 <= i < |was| && i !in done :: now[i] == was[i])
    && (forall i | i in done :: start <= i < optEnd && now[i] == was[Source(i, start, end, optEnd)])
  }

  /** The inner loop of permute_args. */
  method MoveCycle<T>(nargv: array<T>, start: int, end: int, optEnd: int, cstart: int, cyclelen: int, ghost ps: seq<int>)
    requires 0 <= start <= end <= cstart < optEnd <= nargv.Length
    requires IsCycle(ps, start, end, optEnd) && ps[0] == cstart && |ps| == cyclelen + 1
    modifies nargv
    ensures Moved(old(nargv[..]), nargv[..], start, end, optEnd, set p | p in ps)
  {
    ghost var was := nargv[..];
    var pos := cstart;
    var j := 0;
    while j < cyclelen
      invariant 0 <= j <= cyclelen && pos == ps[j]
      invariant forall k | 0 < k <= j :: nargv[ps[k]] == was[ps[k - 1]]
      invariant j < cyclelen ==> nargv[cstart] == was[ps[j]]
      invariant forall i | 0 <= i < nargv.Length && i !in ps[..j + 1] :: nargv[i] == was[i]
    {
      assert ps[j] == Source(ps[j + 1], start, end, optEnd);
      if pos >= end {
        pos := pos - (end - start);
      } else {
        pos := pos + (optEnd - end);
      }
      assert j + 1 < cyclelen ==> pos !in ps[..j + 1];
      var swap := nargv[pos];
      nargv[pos] := nargv[cstart];
      nargv[cstart] := swap;
      j := j + 1;
    }
    assert ps[..j + 1] == ps;
    CycleDone(was, nargv[..], start, end, optEnd, ps);
  }

  lemma CycleDone<T>(was: seq<T>, now: seq<T>, start: int, end: int, optEnd: int, ps: seq<int>)
    requires 0 <= start <= end < optEnd <= |was| == |now| && IsCycle(ps, start, end, optEnd)
    requires forall k | 0 < k < |ps| :: now[ps[k]] == was[ps[k - 1]]
    requires forall i | 0 <= i < |was| && i !in ps :: now[i] == was[i]
    ensures Moved(was, now, start, end, optEnd, set p | p in ps)
  {
    forall i | i in ps ensures now[i] == was[Source(i, start, end, optEnd)] {
      var k :| 0 <= k < |ps| && ps[k] == i;
      if k == 0 { k := |ps| - 1; }
      assert ps[k - 1] == Source(ps[k], start, end, optEnd);
    }
  }

  lemma MovedMore<T>(was: seq<T>, mid: seq<T>, now: seq<T>, start: int, end: int, optEnd: int, done: set<int>, ps: set<int>)
    requires 0 <= start <= end < optEnd <= |was| == |mid| && ps !! done
    requires Moved(was, mid, start, end, optEnd, done) && Moved(mid, now, start, end, optEnd, ps)
    requires forall i | i in ps :: Source(i, start, end, optEnd) !in done
    ensures Moved(was, now, start, end, optEnd, done + ps)
  {}

  lemma MovedAll<T>(was: seq<T>, now: seq<T>, start: int, end: int, optEnd: int, done: set<int>)
    requires 0 <= start <= end < optEnd <= |was| && Moved(was, now, start, end, optEnd, done)
    requires forall i | start <= i < optEnd :: i in done
    ensures now == Exchanged(was, start, end, optEnd)
  {
    forall i | 0 <= i < |was| ensures now[i] == Exchanged(was, start, end, optEnd)[i] {
      ExchangedAt(was, start, end, optEnd, i);
    }
  }

  lemma ExchangedAt<T>(s: seq<T>, lo: int, mid: int, hi: int, i: int)
    requires 0 <= lo <= mid <= hi <= |s| && 0 <= i < |s|
    ensures Exchanged(s, lo, mid, hi)[i] == if lo <= i < hi then s[Source(i, lo, mid, hi)] else s[i]
  {}

  /** The cycle from `cstart` holds the indices that are the same modulo `g`. */
  lemma TheCycle(start: int, end: int, optEnd: int, g: int, x: int, y: int, len: int, cstart: int) returns (ps: seq<int>)
    requires start <= end < optEnd && Cycles(end - start, optEnd - end, g, x, y, len) && start <= cstart < optEnd
    ensures IsCycle(ps, start, end, optEnd) && ps[0] == cstart && |ps| == len + 1
    ensures forall i | start <= i < optEnd :: i in ps <==> (i - start) % g == (cstart - start) % g
  {
    var n, nopts, c := optEnd - start, optEnd - end, cstart - start;
    LengthPositive(end - start, nopts, g, x, y, len);
    ps := seq(len + 1, k => start + Place(c, nopts, n, k));
    DivMod(n, 0, c);
    PlacesClose(end - start, nopts, g, x, y, len, c);
    forall k | 0 < k < |ps| ensures ps[k - 1] == Source(ps[k], start, end, optEnd) {
      PlaceStep(c, nopts, n, k - 1);
    }
    forall j, k | 0 <= j < k < |ps| - 1 ensures ps[j] != ps[k] {
      PlacesDiffer(end - start, nopts, g, x, y, len, c, j, k);
    }
    forall i | start <= i < optEnd ensures i in ps <==> (i - start) % g == c % g {
      InCycle(start, end, optEnd, g, x, y, len, c, i, ps);
    }
  }

  lemma LengthPositive(nnonopts: int, nopts: int, g: int, x: int, y: int, len: int)
    requires Cycles(nnonopts, nopts, g, x, y, len)
    ensures len > 0
  {
    var v, w := Inverse(nnonopts, nopts, g, x, y, len);
  }

  lemma InCycle(start: int, end: int, optEnd: int, g: int, x: int, y: int, len: int, c: int, i: int, ps: seq<int>)
    requires start <= i < optEnd && Cycles(end - start, optEnd - end, g, x, y, len) && |ps| == len + 1
    requires forall k | 0 <= k < |ps| :: ps[k] == start + Place(c, optEnd - end, optEnd - start, k)
    ensures i in ps <==> (i - start) % g == c % g
  {
    var nnonopts, nopts := end - start, optEnd - end;
    if i in ps {
      var k :| 0 <= k < |ps| && ps[k] == i;
      PlaceResidue(nnonopts, nopts, g, x, y, len, c, k);
    }
    if (i - start) % g == c % g {
      SameResidue(i - start, c, g);
      var k := PlacesReach(nnonopts, nopts, g, x, y, len, c, i - start);
      assert ps[k] == i;
    }
  }

  lemma SameResidue(r: int, c: int, g: int)
    requires g > 0 && r % g == c % g
    ensures (r - c) % g == 0
  {
    assert r - c == g * (r / g - c / g);
    Multiple(g, r / g - c / g);
  }

  lemma CyclesFit(nnonopts: int, nopts: int, g: int, x: int, y: int)
    requires 0 <= nnonopts && 0 < nopts && IsGcd(nnonopts, nopts, g, x, y)
    ensures Cycles(nnonopts, nopts, g, x, y, (nnonopts + nopts) / g)
    ensures g <= nopts
  {
    DivideSum(nnonopts, 1, nopts, g);
    assert nopts == g * (nopts / g);
  }

  /** Before the cycle `i`, the classes below `i` modulo `g` are done. */
  ghost predicate Classes(done: set<int>, start: int, optEnd: int, g: int, i: int)
    requires g > 0
  {
    && (forall k | k in done :: start <= k < optEnd)
    && (forall k | start <= k < optEnd :: k in done <==> (k - start) % g < i)
  }

  lemma NextClass(done: set<int>, start: int, end: int, optEnd: int, g: int, i: int, ps: seq<int>)
    requires 0 <= i < g && start <= end < optEnd && (end - start) % g == 0 && Classes(done, start, optEnd, g, i)
    requires IsCycle(ps, start, end, optEnd)
    requires forall k | start <= k < optEnd :: k in ps <==> (k - start) % g == (end + i - start) % g
    ensures Classes(done + (set p | p in ps), start, optEnd, g, i + 1) && (set p | p in ps) !! done
    ensures forall p | p in ps :: Source(p, start, end, optEnd) !in done
  {
    DivMod(g, (end - start) / g, i);
    assert (end + i - start) % g == i;
    forall p | p in ps ensures Source(p, start, end, optEnd) !in done {
      var k :| 0 <= k < |ps| && ps[k] == p;
      if k == 0 { k := |ps| - 1; }
      assert ps[k - 1] in ps && ps[k - 1] == Source(ps[k], start, end, optEnd);
    }
  }

  /** permute_args: the blocks [start, end) and [end, optEnd) are exchanged, each
      in its order. */
  method PermuteArgs<T>(start: int, end: int, optEnd: int, nargv: array<T>)
    requires 0 <= start <= end < optEnd <= nargv.Length
    modifies nargv
    ensures nargv[..] == Exchanged(old(nargv[..]), start, end, optEnd)
  {
    ghost var was, done: set<int> := nargv[..], {};
    var nnonopts := end - start;
    var nopts := optEnd - end;
    var ncycle, x, y := Gcd(nnonopts, nopts);
    var cyclelen := (optEnd - start) / ncycle;
    CyclesFit(nnonopts, nopts, ncycle, x, y);
    var i := 0;
    while i < ncycle
      invariant 0 <= i <= ncycle && Classes(done, start, optEnd, ncycle, i)
      invariant Moved(was, nargv[..], start, end, optEnd, done)
    {
      var cstart := end + i;
      ghost var ps := TheCycle(start, end, optEnd, ncycle, x, y, cyclelen, cstart);
      ghost var mid := nargv[..];
      MoveCycle(nargv, start, end, optEnd, cstart, cyclelen, ps);
      NextClass(done, start, end, optEnd, ncycle, i, ps);
      MovedMore(was, mid, nargv[..], start, end, optEnd, done, set p | p in ps);
      done := done + (set p | p in ps);
      i := i + 1;
    }
    MovedAll(was, nargv[..], start, end, optEnd, done);
  }
}
