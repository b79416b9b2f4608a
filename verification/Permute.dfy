/** In-place exchange of two adjacent blocks by gcd cycles: permute_args of src/3rdparty/getopt/getopt.h. */
module Permute {
  import opened Powers

  /**
    Euclid's algorithm. Besides the divisor it returns, as ghosts, the cofactors of a and b and the coefficients
    that combine them to it, which make it the greatest common divisor.
    */
  method Gcd(a: nat, b: nat) returns (g: nat, ghost u: int, ghost v: int, ghost x: int, ghost y: int)
    requires b > 0
    ensures g > 0 && a == g * u && b == g * v
    ensures g == a * x + b * y
  {
    var p, q := a, b;
    var c := p % q;
    // p == a * px + b * py and q == a * qx + b * qy; a == p * ap + q * aq and b == p * bp + q * bq
    ghost var px, py, qx, qy := 1, 0, 0, 1;
    ghost var ap, aq, bp, bq := 1, 0, 0, 1;
    while c != 0
      invariant q > 0 && c == p % q
      invariant p == a * px + b * py && q == a * qx + b * qy
      invariant a == p * ap + q * aq && b == p * bp + q * bq
      decreases c
    {
      ghost var t := p / q;
      assert p == t * q + c;
      CombineStep(a, b, p, q, c, t, px, py, qx, qy);
      SplitStep(a, p, q, c, t, ap, aq);
      SplitStep(b, p, q, c, t, bp, bq);
      px, py, qx, qy := qx, qy, px - t * qx, py - t * qy;
      ap, aq, bp, bq := t * ap + aq, ap, t * bp + bq, bp;
      p := q;
      q := c;
      c := p % q;
    }
    g := q;
    ghost var t := p / q;
    SplitStep(a, p, q, 0, t, ap, aq);
    SplitStep(b, p, q, 0, t, bp, bq);
    u, v, x, y := t * ap + aq, t * bp + bq, qx, qy;
  }

  lemma CombineStep(a: int, b: int, p: int, q: int, c: int, t: int, px: int, py: int, qx: int, qy: int)
    requires p == a * px + b * py && q == a * qx + b * qy && p == t * q + c
    ensures c == a * (px - t * qx) + b * (py - t * qy)
  {
    assert t * (a * qx + b * qy) == a * (t * qx) + b * (t * qy);
  }

  lemma SplitStep(a: int, p: int, q: int, c: int, t: int, k: int, l: int)
    requires a == p * k + q * l && p == t * q + c
    ensures a == q * (t * k + l) + c * k
  {
    assert (t * q + c) * k == q * (t * k) + c * k;
  }

  /** Two adjacent blocks of m and n slots, their common divisor and the coefficients that go with it. */
  datatype Blocks = Blocks(m: nat, n: nat, g: nat, u: int, v: int, x: int, y: int) {
    ghost predicate Valid() {
      && m > 0 && n > 0 && g > 0 && u > 0 && v > 0
      && m == g * u && n == g * v && g == m * x + n * y
    }

    function Size(): nat { m + n }

    function Length(): int { u + v }

    /** Where the cycle goes from slot p, and where it came from. */
    function Next(p: int): int {
      if p >= m then p - m else p + n
    }

    function Previous(p: int): int {
      if p < n then p + m else p - n
    }

    /** How many steps of its cycle lead to slot p from the slot where the cycle starts. */
    ghost function Rank(p: int): int
      requires Valid()
    {
      ((p / g - u) * (y - x)) % Length()
    }
  }

  /** Cancelling the divisor makes v invertible modulo the length of a cycle. */
  lemma UnitCoefficients(b: Blocks)
    requires b.Valid()
    ensures b.v * (b.y - b.x) == 1 - b.Length() * b.x
  {
    var g, u, v, x, y := b.g, b.u, b.v, b.x, b.y;
    assert (u * x + v * y) * g == g * u * x + g * v * y by {
      MulDistribute(u * x, v * y, g);
      MulCommutes(g, u * x);
      MulCommutes(g, v * y);
      MulAssoc(g, u, x);
      MulAssoc(g, v, y);
    }
    MulCancel(1, u * x + v * y, g);
  }

  /** In rows of g slots, a step of the cycle stays in its column and moves a whole number of rows. */
  lemma RowAndColumn(b: Blocks, p: nat)
    requires b.Valid() && p < b.Size()
    ensures 0 <= p / b.g < b.Length()
    ensures p >= b.m <==> p / b.g >= b.u
    ensures b.Next(p) % b.g == p % b.g
    ensures b.Next(p) / b.g == p / b.g + if p >= b.m then -b.u else b.v
    ensures b.Previous(p) % b.g == p % b.g && 0 <= b.Previous(p) < b.Size()
  {
    var s, i := p / b.g, p % b.g;
    assert p == s * b.g + i;
    MulCommutes(b.g, b.u);
    MulCommutes(b.g, b.v);
    MulDistribute(b.u, b.v, b.g);
    RowBelow(p, s, i, b.g, b.Length());
    RowBelow(p, s, i, b.g, b.u);
    ShiftRows(s, i, b.g, -b.u, p, p - b.m);
    ShiftRows(s, i, b.g, b.v, p, p + b.n);
    ShiftRows(s, i, b.g, b.u, p, p + b.m);
    ShiftRows(s, i, b.g, -b.v, p, p - b.n);
  }

  lemma RowBelow(p: int, s: int, i: int, g: nat, k: int)
    requires p == s * g + i && 0 <= i < g
    ensures p < k * g <==> s < k
  {
    if s < k { MulMonotoneInt(s + 1, k, g); } else { MulMonotoneInt(k, s, g); }
  }

  lemma ShiftRows(s: nat, i: nat, g: nat, k: int, p: int, q: int)
    requires i < g && p == s * g + i && q == p + k * g
    ensures q >= 0 ==> q % g == i && q / g == s + k
  {
    MulDistribute(s, k, g);
    if q >= 0 {
      DivModUnique(q, g, s + k, i);
    }
  }

  lemma ModStep(a: int, b: int, k: int, n: nat)
    requires n > 0 && b == a + 1 + k * n
    ensures b % n == if a % n + 1 == n then 0 else a % n + 1
  {
    var q, r := a / n, a % n;
    assert a == q * n + r;
    var q' := if r + 1 == n then q + k + 1 else q + k;
    var r' := if r + 1 == n then 0 else r + 1;
    assert b == q' * n + r' by {
      MulDistribute(q, k, n);
      MulDistribute(q + k, 1, n);
    }
    QuotientUnique(n, b / n, b % n, q', r');
  }

  /** Each step of the cycle has the next rank. */
  lemma RankOfNext(b: Blocks, p: nat)
    requires b.Valid() && p < b.Size()
    ensures b.Rank(b.Next(p)) == if b.Rank(p) + 1 == b.Length() then 0 else b.Rank(p) + 1
  {
    RowAndColumn(b, p);
    UnitCoefficients(b);
    var w, len, d := b.y - b.x, b.Length(), p / b.g - b.u;
    var k := if p >= b.m then -1 else 0;
    RankArithmetic(d, b.v, w, len, b.x, k);
    ModStep(d * w, (d + b.v + k * len) * w, k * w - b.x, len);
  }

  lemma RankArithmetic(d: int, v: int, w: int, len: int, x: int, k: int)
    requires v * w == 1 - len * x
    ensures (d + v + k * len) * w == d * w + 1 + (k * w - x) * len
  {
    assert k * len * w == k * w * len;
  }

  /** Only the slot where the cycle starts has rank zero. */
  lemma RankZero(b: Blocks, p: nat)
    requires b.Valid() && p < b.Size()
    ensures b.Rank(p) == 0 <==> p == b.m + p % b.g
  {
    RowAndColumn(b, p);
    UnitCoefficients(b);
    StartRow(p, b.g, b.u);
    MulCommutes(b.g, b.u);
    ZeroRow(p / b.g - b.u, b.v, b.y - b.x, b.Length(), b.x);
  }

  lemma StartRow(p: nat, g: nat, u: nat)
    requires g > 0
    ensures p == u * g + p % g <==> p / g == u
  {
    assert p == p / g * g + p % g;
    MulCancel(p / g, u, g);
  }

  lemma ZeroRow(d: int, v: int, w: int, len: nat, x: int)
    requires v * w == 1 - len * x && d < len && -d < len && len > 0
    ensures (d * w) % len == 0 <==> d == 0
  {
    if (d * w) % len == 0 {
      var k := (d * w) / len;
      assert d * w == k * len;
      ZeroArithmetic(d, v, w, len, x, k);
      SmallMultiple(d, len, k * v + d * x);
    }
    if d == 0 {
      assert d * w == 0;
    }
  }

  lemma ZeroArithmetic(d: int, v: int, w: int, len: int, x: int, k: int)
    requires v * w == 1 - len * x && d * w == k * len
    ensures d == (k * v + d * x) * len
  {
    assert d * (v * w) == d * w * v;
    assert d * (1 - len * x) == d - d * x * len;
    assert k * len * v == k * v * len;
  }

  lemma SmallMultiple(d: int, len: nat, k: int)
    requires d == k * len && d < len && -d < len
    ensures d == 0
  {
    if k > 0 { MulMonotoneInt(1, k, len); }
    if k < 0 { MulMonotoneInt(k, -1, len); }
  }

  // ------------------------------------------------------------------ the exchange

  /** The slots of a window after the first j steps of the cycle that starts at slot c, having reached slot at. */
  ghost predicate CycleDone(b: Blocks, was: seq<string>, now: seq<string>, c: nat, j: nat, at: nat)
    requires b.Valid()
  {
    && |was| == |now| == b.Size() && c < b.Size() && at < b.Size()
    && forall p :: 0 <= p < |now| ==> now[p] == was[SourceOf(b, p, c, j, at)]
  }

  /** Where the element now in slot p was before the cycle, after j steps that have reached slot at. */
  ghost function SourceOf(b: Blocks, p: nat, c: nat, j: nat, at: nat): (q: nat)
    requires b.Valid() && p < b.Size() && at < b.Size()
    ensures q < b.Size()
  {
    if p % b.g != c % b.g then p
    else if p == c then (if j < b.Length() then at else b.Previous(c))
    else if b.Rank(p) <= j then b.Previous(p)
    else p
  }

  /** One swap moves the start's element to the slot the cycle reaches next. */
  lemma CycleStep(b: Blocks, was: seq<string>, now: seq<string>, c: nat, j: nat, at: nat)
    requires b.Valid() && c < b.Size() && c == b.m + c % b.g
    requires at < b.Size() && at % b.g == c % b.g && j < b.Length() && b.Rank(at) == j
    requires CycleDone(b, was, now, c, j, at)
    ensures var next := b.Next(at);
      && next % b.g == c % b.g && b.Rank(next) == (if j + 1 == b.Length() then 0 else j + 1)
      && CycleDone(b, was, now[next := now[c]][c := now[next]], c, j + 1, next)
  {
    var next := b.Next(at);
    RowAndColumn(b, at);
    RankOfNext(b, at);
    RankZero(b, next);
    RankZero(b, c);
    assert b.Previous(next) == at;
    var after := now[next := now[c]][c := now[next]];
    forall p | 0 <= p < |after|
      ensures after[p] == was[SourceOf(b, p, c, j + 1, next)]
    {
      if p % b.g == c % b.g && p != c && p != next && b.Rank(p) == j + 1 {
        SameRank(b, p, next);
      }
    }
  }

  /** Slots of one column with the same rank are the same slot. */
  lemma SameRank(b: Blocks, p: nat, q: nat)
    requires b.Valid() && p < b.Size() && q < b.Size() && p % b.g == q % b.g && b.Rank(p) == b.Rank(q)
    ensures p == q
  {
    RowAndColumn(b, p);
    RowAndColumn(b, q);
    UnitCoefficients(b);
    SameRow(p / b.g - b.u, q / b.g - b.u, b.v, b.y - b.x, b.Length(), b.x);
    SameSlot(p, q, b.g);
  }

  lemma SameSlot(p: nat, q: nat, g: nat)
    requires g > 0 && p / g == q / g && p % g == q % g
    ensures p == q
  {
    assert p == p / g * g + p % g && q == q / g * g + q % g;
  }

  lemma SameRow(d: int, e: int, v: int, w: int, len: nat, x: int)
    requires len > 0 && v * w == 1 - len * x && d - e < len && e - d < len
    requires (d * w) % len == (e * w) % len
    ensures d == e
  {
    var k := SameRemainder(d * w, e * w, len);
    MulDistribute(d - e, e, w);
    ZeroArithmetic(d - e, v, w, len, x, k);
    SmallMultiple(d - e, len, k * v + (d - e) * x);
  }

  lemma SameRemainder(x: int, y: int, len: nat) returns (k: int)
    requires len > 0 && x % len == y % len
    ensures x - y == k * len
  {
    k := x / len - y / len;
    MulDistribute(k, y / len, len);
  }

  lemma UpdateMiddle(pre: seq<string>, w: seq<string>, post: seq<string>, q: nat, x: string)
    requires q < |w|
    ensures (pre + w + post)[|pre| + q := x] == pre + w[q := x] + post
  {
  }

  /** Exchanges the elements of two slots of the window between pre and post. */
  method SwapSlots(nargv: array<string>, pos: nat, cstart: nat, ghost pre: seq<string>, ghost w: seq<string>,
                   ghost post: seq<string>)
    requires |pre| <= pos < |pre| + |w| && |pre| <= cstart < |pre| + |w|
    requires nargv[..] == pre + w + post
    modifies nargv
    ensures var p, c := pos - |pre|, cstart - |pre|; nargv[..] == pre + w[p := w[c]][c := w[p]] + post
  {
    ghost var p, c, whole := pos - |pre|, cstart - |pre|, nargv[..];
    assert nargv[pos] == whole[pos] == w[p] && nargv[cstart] == whole[cstart] == w[c];
    var swap := nargv[pos];
    nargv[pos] := nargv[cstart];
    assert nargv[..] == whole[pos := w[c]];
    nargv[cstart] := swap;
    assert nargv[..] == whole[pos := w[c]][cstart := w[p]];
    UpdateMiddle(pre, w, post, p, w[c]);
    UpdateMiddle(pre, w[p := w[c]], post, c, w[p]);
  }

  /** One gcd cycle: every slot of column i receives the element it is to have in the exchanged order. */
  method RotateCycle(nargv: array<string>, start: nat, ghost b: Blocks, nnonopts: nat, nopts: nat, cyclelen: nat,
                     i: nat, ghost pre: seq<string>, ghost was: seq<string>, ghost post: seq<string>)
    returns (ghost now: seq<string>)
    requires b.Valid() && nnonopts == b.m && nopts == b.n && cyclelen == b.Length() && i < b.g <= b.n
    requires |pre| == start && |was| == b.Size() && nargv[..] == pre + was + post
    modifies nargv
    ensures |now| == |was| && nargv[..] == pre + now + post
    ensures forall p :: 0 <= p < b.Size() ==> now[p] == was[if p % b.g == i then b.Previous(p) else p]
  {
    var nonoptEnd := start + nnonopts;
    var cstart := nonoptEnd + i;
    ghost var c := b.m + i;
    CycleStart(b, was, i);
    now := was;
    var pos := cstart;
    var j := 0;
    while j < cyclelen
      invariant 0 <= j <= cyclelen && start <= pos < start + b.Size()
      invariant (pos - start) % b.g == i && b.Rank(pos - start) == if j == b.Length() then 0 else j
      invariant CycleDone(b, was, now, c, j, pos - start)
      invariant nargv[..] == pre + now + post
    {
      pos, now := RotateOnce(nargv, start, b, nnonopts, nopts, pos, cstart, j, pre, was, now, post);
      j := j + 1;
    }
    CycleEnd(b, was, now, c, pos - start);
  }

  /** One step of a cycle: to the next slot, whose element changes places with that of the start. */
  method RotateOnce(nargv: array<string>, start: nat, ghost b: Blocks, nnonopts: nat, nopts: nat, posIn: nat,
                    cstart: nat, ghost j: nat, ghost pre: seq<string>, ghost was: seq<string>,
                    ghost before: seq<string>, ghost post: seq<string>)
    returns (pos: nat, ghost now: seq<string>)
    requires b.Valid() && nnonopts == b.m && nopts == b.n && |pre| == start && start <= posIn < start + b.Size()
    requires var c := cstart - start;
      && 0 <= c < b.Size() && c == b.m + c % b.g && (posIn - start) % b.g == c % b.g
      && j < b.Length() && b.Rank(posIn - start) == j && CycleDone(b, was, before, c, j, posIn - start)
    requires nargv[..] == pre + before + post
    modifies nargv
    ensures start <= pos < start + b.Size() && (pos - start) % b.g == (cstart - start) % b.g
    ensures b.Rank(pos - start) == (if j + 1 == b.Length() then 0 else j + 1)
    ensures CycleDone(b, was, now, cstart - start, j + 1, pos - start)
    ensures nargv[..] == pre + now + post
  {
    ghost var c := cstart - start;
    CycleStep(b, was, before, c, j, posIn - start);
    if posIn >= start + nnonopts {
      pos := posIn - nnonopts;
    } else {
      pos := posIn + nopts;
    }
    SwapSlots(nargv, pos, cstart, pre, before, post);
    now := before[pos - start := before[c]][c := before[pos - start]];
  }

  lemma CycleStart(b: Blocks, was: seq<string>, i: nat)
    requires b.Valid() && |was| == b.Size() && i < b.g <= b.n
    ensures (b.m + i) % b.g == i && b.Rank(b.m + i) == 0
    ensures CycleDone(b, was, was, b.m + i, 0, b.m + i)
  {
    MulCommutes(b.g, b.u);
    DivModUnique(b.m + i, b.g, b.u, i);
    RankZero(b, b.m + i);
    forall p | 0 <= p < |was| ensures was[p] == was[SourceOf(b, p, b.m + i, 0, b.m + i)] {
      RankZero(b, p);
      RankIsSmall(b, p);
    }
  }

  lemma RankIsSmall(b: Blocks, p: nat)
    requires b.Valid()
    ensures 0 <= b.Rank(p) < b.Length()
  {
  }

  lemma CycleEnd(b: Blocks, was: seq<string>, now: seq<string>, c: nat, at: nat)
    requires b.Valid() && CycleDone(b, was, now, c, b.Length(), at)
    ensures forall p :: 0 <= p < b.Size() ==> now[p] == was[if p % b.g == c % b.g then b.Previous(p) else p]
  {
    forall p | 0 <= p < b.Size()
      ensures now[p] == was[if p % b.g == c % b.g then b.Previous(p) else p]
    {
      RankIsSmall(b, p);
    }
  }

  /**
    Exchanges the block nargv[start..end) of non-options with the block nargv[end..optEnd) of options, each keeping
    its order, and touches nothing else.
    */
  method PermuteArgs(start: nat, end: nat, optEnd: nat, nargv: array<string>)
    requires start < end < optEnd <= nargv.Length
    modifies nargv
    ensures var was := old(nargv[..]);
      nargv[..] == was[..start] + was[end..optEnd] + was[start..end] + was[optEnd..]
  {
    ghost var all := nargv[..];
    ghost var pre, was, post := all[..start], all[start..optEnd], all[optEnd..];
    assert all == pre + was + post;
    var nnonopts := end - start;
    var nopts := optEnd - end;
    var ncycle, u, v, x, y := Gcd(nnonopts, nopts);
    ghost var b := Blocks(nnonopts, nopts, ncycle, u, v, x, y);
    GcdBlocks(b);
    var cyclelen := (optEnd - start) / ncycle;
    RotateCycles(nargv, start, b, nnonopts, nopts, ncycle, cyclelen, pre, was, post);
    BlocksExchanged(all, start, end, optEnd);
  }

  method RotateCycles(nargv: array<string>, start: nat, ghost b: Blocks, nnonopts: nat, nopts: nat, ncycle: nat,
                      cyclelen: nat, ghost pre: seq<string>, ghost was: seq<string>, ghost post: seq<string>)
    requires b.Valid() && nnonopts == b.m && nopts == b.n && cyclelen == b.Length() && ncycle == b.g <= b.n
    requires |pre| == start && |was| == b.Size() && nargv[..] == pre + was + post
    modifies nargv
    ensures nargv[..] == pre + (was[b.m..] + was[..b.m]) + post
  {
    ghost var now := was;
    var i := 0;
    while i < ncycle
      invariant 0 <= i <= ncycle && |now| == b.Size()
      invariant nargv[..] == pre + now + post
      invariant forall p :: 0 <= p < b.Size() ==> now[p] == was[if p % b.g < i then b.Previous(p) else p]
    {
      ghost var before := now;
      now := RotateCycle(nargv, start, b, nnonopts, nopts, cyclelen, i, pre, now, post);
      OneMoreColumn(b, was, before, now, i);
      i := i + 1;
    }
    AllColumns(b, was, now);
  }

  lemma BlocksExchanged(all: seq<string>, start: nat, end: nat, optEnd: nat)
    requires start < end < optEnd <= |all|
    ensures var was := all[start..optEnd];
      all[..start] + (was[end - start..] + was[..end - start]) + all[optEnd..] ==
      all[..start] + all[end..optEnd] + all[start..end] + all[optEnd..]
  {
    var was := all[start..optEnd];
    assert was[end - start..] == all[end..optEnd] && was[..end - start] == all[start..end];
  }

  lemma OneMoreColumn(b: Blocks, was: seq<string>, before: seq<string>, now: seq<string>, i: nat)
    requires b.Valid() && |was| == |before| == |now| == b.Size()
    requires forall p :: 0 <= p < b.Size() ==> before[p] == was[if p % b.g < i then b.Previous(p) else p]
    requires forall p :: 0 <= p < b.Size() ==> now[p] == before[if p % b.g == i then b.Previous(p) else p]
    ensures forall p :: 0 <= p < b.Size() ==> now[p] == was[if p % b.g < i + 1 then b.Previous(p) else p]
  {
    forall p | 0 <= p < b.Size()
      ensures now[p] == was[if p % b.g < i + 1 then b.Previous(p) else p]
    {
      RowAndColumn(b, p);
    }
  }

  /** When every slot has what came b.Previous away, the two blocks have changed places. */
  lemma AllColumns(b: Blocks, was: seq<string>, now: seq<string>)
    requires b.Valid() && |was| == |now| == b.Size()
    requires forall p :: 0 <= p < b.Size() ==> now[p] == was[if p % b.g < b.g then b.Previous(p) else p]
    ensures now == was[b.m..] + was[..b.m]
  {
    forall p | 0 <= p < b.Size() ensures now[p] == (was[b.m..] + was[..b.m])[p] {
      assert p % b.g < b.g;
    }
  }

  lemma GcdBlocks(b: Blocks)
    requires b.m > 0 && b.n > 0 && b.g > 0 && b.m == b.g * b.u && b.n == b.g * b.v && b.g == b.m * b.x + b.n * b.y
    ensures b.Valid() && b.g <= b.n && b.Size() / b.g == b.Length()
  {
    if b.u <= 0 { MulMonotoneInt(b.u, 0, b.g); MulCommutes(b.g, b.u); }
    if b.v <= 0 { MulMonotoneInt(b.v, 0, b.g); MulCommutes(b.g, b.v); }
    MulMonotoneInt(1, b.v, b.g);
    MulDistribute(b.u, b.v, b.g);
    MulCommutes(b.g, b.u);
    MulCommutes(b.g, b.v);
    DivModUnique(b.Size(), b.g, b.Length(), 0);
  }
}
