/** codecvt<char16_t, char, mbstate_t>: UTF-16 code units <-> UTF-8 bytes.
    The two helpers on the state are update_mbstate(char16_t), which pairs
    surrogates (section 2.2 of RFC 2781), and extract_leader_value, which
    splits a code point above the basic multilingual plane into a high
    surrogate and a queued low surrogate (section 2.1 of RFC 2781). */
module Codecvt16 {
  import opened Utf8Conv
  import opened Seqs

  // ---------------------------------------------------------------------
  // update_mbstate(char16_t)

  /** 2^k */
  function Pow2(k: nat): (r: nat)
    ensures r >= 1
  {
    if k == 0 then 1 else 2 * Pow2(k - 1)
  }

  lemma Pow2Ten()
    ensures Pow2(10) == 0x400
  {
    assert Pow2(2) == 4;
    assert Pow2(5) == 32;
  }

  /** Bitwise or of the low k bits of x and y. */
  function OrBits(x: nat, y: nat, k: nat): (r: nat)
    ensures r < Pow2(k)
  {
    if k == 0 then 0
    else OrBits(x / 2, y / 2, k - 1) * 2 + (if x % 2 == 1 || y % 2 == 1 then 1 else 0)
  }

  /** Or-ing into zero bits copies the operand. */
  lemma {:induction false} OrBitsZero(y: nat, k: nat)
    requires y < Pow2(k)
    ensures OrBits(0, y, k) == y
  {
    if k > 0 {
      OrBitsZero(y / 2, k - 1);
    }
  }

  /** value |= m for a mask m below 2^10: only the low ten bits of the
      accumulator take part. */
  function OrLow10(a: u32, m: nat): (r: u32)
    requires m < 0x400
    ensures a % 0x400 == 0 ==> r == a + m
  {
    Pow2Ten();
    OrBitsZero(m, 10);
    var q, low := a / 0x400, a % 0x400;
    assert a == q * 0x400 + low && q < 0x40_0000;
    q * 0x400 + OrBits(low, m, 10)
  }

  /** update_mbstate(char16_t): feed one UTF-16 unit. An idle state takes
      a unit outside the surrogate block as a complete code point and
      a high surrogate as the upper ten bits of one (awaiting, count -1);
      an awaiting state takes the low surrogate that completes the pair.
      A lone low surrogate, or anything but a low surrogate while
      awaiting, is rejected. Any other count is accepted unchanged: the
      function has no branch for it. */
  function Update16(st: St, c: u16): (r: Step)
    ensures !r.ok ==> r.st == st
    ensures st.count != 0 && st.count != -1 ==> r == Step(true, st)
  {
    if st.count == 0 then
      if c < 0xD800 || c > 0xDFFF then Step(true, St(0, c))
      else if c < 0xDC00 then Step(true, St(-1, (c % 0x400) * 0x400))
      else Step(false, st)
    else if st.count == -1 then
      if 0xDBFF < c < 0xE000 then
        Step(true, St(0, (OrLow10(st.value, c % 0x400) + 0x1_0000) % 0x1_0000_0000))
      else Step(false, st)
    else
      Step(true, st)
  }

  /** From an idle state: a unit outside the surrogate block completes a
      code point equal to it, a high surrogate leaves the state awaiting
      with its ten payload bits shifted into place, and a low surrogate
      is rejected. */
  lemma {:induction false} IdleUnit(v: u32, c: u16)
    ensures var r := Update16(St(0, v), c);
      (r.ok && r.st.count == 0 <==> !(0xD800 <= c < 0xE000))
      && (r.ok && r.st.count == 0 ==> r.st.value == c)
      && (r.ok && r.st.count != 0 <==> 0xD800 <= c < 0xDC00)
      && (r.ok && r.st.count != 0 ==> r.st == St(-1, (c - 0xD800) * 0x400) && Awaits(r.st))
      && (!r.ok <==> 0xDC00 <= c < 0xE000)
  {
  }

  /** From an awaiting state exactly the low surrogates are accepted, and
      one completes the pair: 0x10000 plus the high ten bits already in
      place plus the low ten bits of the unit. */
  lemma {:induction false} AwaitingUnit(st: St, c: u16)
    requires st.count == -1 && Awaits(st)
    ensures var r := Update16(st, c);
      (r.ok <==> 0xDC00 <= c < 0xE000)
      && (r.ok ==> r.st == St(0, st.value + (c - 0xDC00) + 0x1_0000))
  {
    if 0xDC00 <= c < 0xE000 {
      LowSurrogateJoins(st.value, c);
    }
  }

  /** The accumulator arithmetic of a completed pair: or-ing the low ten
      bits of a low surrogate into upper bits already in place adds them,
      and adding 0x10000 does not wrap. */
  lemma LowSurrogateJoins(a: u32, c: u16)
    requires a < 0x10_0000 && a % 0x400 == 0 && 0xDC00 <= c < 0xE000
    ensures (OrLow10(a, c % 0x400) + 0x1_0000) % 0x1_0000_0000 == a + (c - 0xDC00) + 0x1_0000
  {
    LowTenBits(c);
    var o := OrLow10(a, c - 0xDC00);
    assert o + 0x1_0000 < 0x1_0000_0000;
  }

  /** The payload of a low surrogate is its offset into the block. */
  lemma LowTenBits(c: u16)
    requires 0xDC00 <= c < 0xE000
    ensures c % 0x400 == c - 0xDC00
  {
    assert c == 0x37 * 0x400 + (c - 0xDC00);
  }

  /** A state the UTF-16 helpers can be in between calls: idle, emitting,
      or awaiting a low surrogate with the upper ten bits of a
      supplementary code point in place. */
  predicate Awaits(st: St)
  {
    st.count == -1 ==> st.value < 0x10_0000 && st.value % 0x400 == 0
  }

  /** A Unicode scalar value: below 0x110000 and outside the surrogates. */
  predicate Scalar(c: u32)
  {
    c < 0xD800 || 0xE000 <= c <= 0x10_FFFF
  }

  /** A high surrogate followed by a low surrogate decodes, from an idle
      state, to 0x10000 + (hi - 0xD800) * 2^10 + (lo - 0xDC00), a
      supplementary-plane code point. */
  lemma {:induction false} PairDecode(v: u32, hi: u16, lo: u16)
    requires 0xD800 <= hi < 0xDC00 && 0xDC00 <= lo < 0xE000
    ensures Update16(St(0, v), hi).ok
    ensures var c := 0x1_0000 + (hi - 0xD800) * 0x400 + (lo - 0xDC00);
      Update16(Update16(St(0, v), hi).st, lo) == Step(true, St(0, c))
      && 0x1_0000 <= c <= 0x10_FFFF
  {
    IdleUnit(v, hi);
    var a := Update16(St(0, v), hi).st;
    AwaitingUnit(a, lo);
  }

  // ---------------------------------------------------------------------
  // extract_leader_value

  /** The unit extract_leader_value returns and the state it leaves. */
  datatype LeadUnit = LeadUnit(u: u16, st: St)

  /** extract_leader_value: a value below 0x10000 is returned as it is,
      the state untouched; otherwise the high surrogate of value - 0x10000
      is returned and the low surrogate is left queued in `value` with
      count -1. Only twenty bits of value - 0x10000 survive. */
  function LeaderValue(st: St): (r: LeadUnit)
    ensures st.value < 0x1_0000 ==> r == LeadUnit(st.value, st)
    ensures st.value >= 0x1_0000 ==>
      0xD800 <= r.u < 0xDC00 && r.st.count == -1 && 0xDC00 <= r.st.value < 0xE000
  {
    if st.value < 0x1_0000 then LeadUnit(st.value, st)
    else
      var v := st.value - 0x1_0000;
      LeadUnit(0xD800 + (v / 0x400) % 0x400, St(-1, 0xDC00 + v % 0x400))
  }

  /** The UTF-16 form of a code point: one unit in the basic multilingual
      plane, a surrogate pair above it. */
  function UnitsOf(c: u32): (r: seq<u16>)
    ensures |r| == if c < 0x1_0000 then 1 else 2
  {
    if c < 0x1_0000 then [c]
    else [0xD800 + ((c - 0x1_0000) / 0x400) % 0x400, 0xDC00 + (c - 0x1_0000) % 0x400]
  }

  /** The low surrogate still owed by a state, if any. The unit written
      is the low sixteen bits of `value` (the char16_t conversion). */
  function Queued(st: St): (r: seq<u16>)
    ensures |r| <= 1
  {
    if st.count < 0 then [st.value % 0x1_0000] else []
  }

  /** extract_leader_value followed by the queued unit spells the UTF-16
      form of the value. */
  lemma LeaderThenQueued(st: St)
    requires st.count == 0
    ensures var r := LeaderValue(st); [r.u] + Queued(r.st) == UnitsOf(st.value)
  {
  }

  /** Splitting and re-pairing: for a supplementary code point c the
      two units extract_leader_value produces decode back to c. */
  lemma {:induction false} SurrogateRoundTrip(c: u32, v: u32)
    requires 0x1_0000 <= c <= 0x10_FFFF
    ensures var r := LeaderValue(St(0, c));
      var lo := r.st.value;
      r.u == 0xD800 + (c - 0x1_0000) / 0x400 && lo == 0xDC00 + (c - 0x1_0000) % 0x400
      && Update16(Update16(St(0, v), r.u).st, lo) == Step(true, St(0, c))
  {
    var r := LeaderValue(St(0, c));
    var w := c - 0x1_0000;
    var q, rem := w / 0x400, w % 0x400;
    assert w == q * 0x400 + rem && q < 0x400;
    assert r.u == 0xD800 + q && r.st.value == 0xDC00 + rem;
    PairDecode(v, r.u, r.st.value);
  }

  /** Above 0x10FFFF the split loses the top bits: 0x110000 comes out as
      the surrogate pair of 0x10000. */
  lemma LeaderValueAliases()
    ensures LeaderValue(St(0, 0x11_0000)) == LeaderValue(St(0, 0x1_0000))
    ensures UnitsOf(0x11_0000) == UnitsOf(0x1_0000) == [0xD800, 0xDC00]
  {
  }

  // ---------------------------------------------------------------------
  // Streams of units

  function UnitsAll(cs: seq<u32>): (r: seq<u16>)
  {
    if cs == [] then [] else UnitsAll(cs[..|cs| - 1]) + UnitsOf(cs[|cs| - 1])
  }

  /** Progress of a UTF-16 decoder: whether every unit was accepted, the
      state, and the code points completed. */
  datatype Feed16 = Feed16(ok: bool, st: St, cps: seq<u32>)

  function Feed16Unit(d: Feed16, c: u16): (r: Feed16)
  {
    if !d.ok then d
    else
      var r := Update16(d.st, c);
      if !r.ok then Feed16(false, d.st, d.cps)
      else Feed16(true, r.st, if r.st.count == 0 then d.cps + [r.st.value] else d.cps)
  }

  function FeedAll16(d: Feed16, us: seq<u16>): (r: Feed16)
  {
    if us == [] then d else Feed16Unit(FeedAll16(d, us[..|us| - 1]), us[|us| - 1])
  }

  /** The code points a unit stream decodes to from state st. */
  function Decode16(st: St, us: seq<u16>): (r: Feed16)
  {
    FeedAll16(Feed16(true, st, []), us)
  }

  lemma {:induction false} FeedAll16Append(d: Feed16, a: seq<u16>, b: seq<u16>)
    ensures FeedAll16(d, a + b) == FeedAll16(FeedAll16(d, a), b)
    decreases |b|
  {
    if b == [] {
      assert a + b == a;
    } else {
      var b' := b[..|b| - 1];
      assert (a + b)[..|a + b| - 1] == a + b';
      assert (a + b)[|a + b| - 1] == b[|b| - 1];
      FeedAll16Append(d, a, b');
    }
  }

  /** Decoding the UTF-16 form of a scalar value from an idle state
      yields that value. */
  lemma UnitsOfRoundTrip(c: u32, v: u32, cps: seq<u32>)
    requires Scalar(c)
    ensures FeedAll16(Feed16(true, St(0, v), cps), UnitsOf(c)) == Feed16(true, St(0, c), cps + [c])
  {
    var d0 := Feed16(true, St(0, v), cps);
    var us := UnitsOf(c);
    if c < 0x1_0000 {
      assert us == [c] && us[..0] == [];
    } else {
      SurrogateRoundTrip(c, v);
      assert us[..1] == [us[0]] && us[..1][..0] == [];
      var d1 := Feed16Unit(d0, us[0]);
      assert FeedAll16(d0, us[..1]) == d1;
    }
  }

  /** decode16(units(cs)) == cs for every sequence of scalar values. */
  lemma {:induction false} UnitsAllRoundTrip(cs: seq<u32>, v: u32)
    requires forall i :: 0 <= i < |cs| ==> Scalar(cs[i])
    ensures var d := Decode16(St(0, v), UnitsAll(cs));
      d.ok && d.st.count == 0 && d.cps == cs
    decreases |cs|
  {
    if cs != [] {
      var init := cs[..|cs| - 1];
      var c := cs[|cs| - 1];
      var f0 := Feed16(true, St(0, v), []);
      UnitsAllRoundTrip(init, v);
      var d := FeedAll16(f0, UnitsAll(init));
      FeedAll16Append(f0, UnitsAll(init), UnitsOf(c));
      assert d == Feed16(true, St(0, d.st.value), init);
      UnitsOfRoundTrip(c, d.st.value, init);
      assert init + [c] == cs;
    }
  }

  /** The high surrogate an awaiting state was fed, if any. */
  function AwaitedHigh(st: St): (r: seq<u16>)
    requires Awaits(st)
    ensures |r| == if st.count == -1 then 1 else 0
  {
    if st.count == -1 then [0xD800 + st.value / 0x400] else []
  }

  /** A decoding of the units `us` so far that is accepted leaves the
      state idle or awaiting, and the units of the code points decoded,
      followed by the high surrogate still awaiting its pair, are `us`. */
  predicate UnitsBehind(d: Feed16, us: seq<u16>)
  {
    d.ok ==>
      ((d.st.count == 0 || d.st.count == -1) && Awaits(d.st)
       && UnitsAll(d.cps) + AwaitedHigh(d.st) == us)
  }

  /** The UTF-16 form of 0x10000 + h * 2^10 + m is the pair of high
      surrogate 0xD800 + h and low surrogate 0xDC00 + m. */
  lemma PairUnits(h: nat, m: nat)
    requires h < 0x400 && m < 0x400
    ensures UnitsOf(0x1_0000 + h * 0x400 + m) == [0xD800 + h, 0xDC00 + m]
  {
    var w := h * 0x400 + m;
    assert w / 0x400 == h && w % 0x400 == m;
  }

  /** One unit more keeps the units of the decoded code points, followed
      by the high surrogate still awaiting its pair, equal to the units
      fed. */
  lemma UnitsBackStep(d: Feed16, us: seq<u16>, u: u16)
    requires d.ok && UnitsBehind(d, us)
    ensures UnitsBehind(Feed16Unit(d, u), us + [u])
  {
    if d.st.count == 0 {
      assert UnitsAll(d.cps) + [] == UnitsAll(d.cps);
      UnitsBackIdle(d, us, u);
    } else {
      UnitsBackAwaiting(d, us, u);
    }
  }

  /** From an idle state: a unit outside the surrogates is its own code
      point, and a high surrogate is what the state now awaits with. */
  lemma UnitsBackIdle(d: Feed16, us: seq<u16>, u: u16)
    requires d.ok && d.st.count == 0 && UnitsAll(d.cps) == us
    ensures UnitsBehind(Feed16Unit(d, u), us + [u])
  {
    IdleUnit(d.st.value, u);
    var d' := Feed16Unit(d, u);
    if d'.ok && d'.st.count == 0 {
      assert d'.cps == d.cps + [u];
      UnitsAllSnoc(d.cps, u);
    } else if d'.ok {
      assert d'.cps == d.cps && AwaitedHigh(d'.st) == [u];
    }
  }

  /** From an awaiting state: the low surrogate completes a code point
      whose UTF-16 form is the awaited high surrogate and this unit. */
  lemma UnitsBackAwaiting(d: Feed16, us: seq<u16>, u: u16)
    requires d.ok && d.st.count == -1 && Awaits(d.st)
    requires UnitsAll(d.cps) + [0xD800 + d.st.value / 0x400] == us
    ensures UnitsBehind(Feed16Unit(d, u), us + [u])
  {
    AwaitingUnit(d.st, u);
    if 0xDC00 <= u < 0xE000 {
      var hi := 0xD800 + d.st.value / 0x400;
      var c := d.st.value + (u - 0xDC00) + 0x1_0000;
      assert Feed16Unit(d, u) == Feed16(true, St(0, c), d.cps + [c]);
      AwaitedPair(d.st.value, u);
      UnitsAllSnoc(d.cps, c);
      SeqAssoc(UnitsAll(d.cps), [hi], [u]);
    }
  }

  /** The code point an awaiting state completes with a low surrogate u
      has the awaited high surrogate and u as its UTF-16 form. */
  lemma AwaitedPair(value: u32, u: u16)
    requires value < 0x10_0000 && value % 0x400 == 0 && 0xDC00 <= u < 0xE000
    ensures UnitsOf(value + (u - 0xDC00) + 0x1_0000) == [0xD800 + value / 0x400] + [u]
  {
    var h := value / 0x400;
    assert value == h * 0x400;
    PairUnits(h, u - 0xDC00);
  }

  /** Decoding a unit stream accepted so far: the units of the code
      points decoded, followed by a high surrogate still awaiting its
      pair, are the units fed. */
  lemma {:induction false} UnitsBack(v: u32, us: seq<u16>)
    ensures UnitsBehind(Decode16(St(0, v), us), us)
    decreases |us|
  {
    if us != [] {
      var n := |us| - 1;
      var init := us[..n];
      UnitsBack(v, init);
      Decode16Snoc(St(0, v), us, n);
      assert us[..n + 1] == us && init + [us[n]] == us;
      var d0 := Decode16(St(0, v), init);
      if d0.ok {
        UnitsBackStep(d0, init, us[n]);
      }
    }
  }

  /** units(decode16(us)) == us for every unit stream the decoder accepts
      and leaves idle: a well-formed UTF-16 stream is the UTF-16 form of
      the code points it decodes to. */
  lemma DecodeUnitsRoundTrip(v: u32, us: seq<u16>)
    requires var d := Decode16(St(0, v), us); d.ok && d.st.count == 0
    ensures UnitsAll(Decode16(St(0, v), us).cps) == us
  {
    UnitsBack(v, us);
    var d := Decode16(St(0, v), us);
    assert UnitsAll(d.cps) + [] == UnitsAll(d.cps);
  }

  /** From an awaiting-or-idle state of the facet, every accepted unit
      keeps the state well formed and every completed code point is a
      scalar value. */
  lemma Feed16UnitScalar(d: Feed16, c: u16)
    requires d.ok && d.st.count <= 0 && Awaits(d.st)
    requires forall i :: 0 <= i < |d.cps| ==> Scalar(d.cps[i])
    ensures var d' := Feed16Unit(d, c);
      d'.st.count <= 0 && Awaits(d'.st)
      && (forall i :: 0 <= i < |d'.cps| ==> Scalar(d'.cps[i]))
      && (d'.ok && d'.st.count == 0 ==> d'.cps == d.cps + [d'.st.value])
      && (d'.ok && d'.st.count != 0 ==> d'.cps == d.cps)
  {
    if d.st.count == 0 {
      IdleUnit(d.st.value, c);
    } else if d.st.count == -1 {
      AwaitingUnit(d.st, c);
    }
  }

  // ---------------------------------------------------------------------
  // The helpers on the caller's state

  /** update_mbstate(state, unit) */
  method UpdateMbstate(s: MbState, c: u16) returns (ok: bool)
    modifies s
    ensures Step(ok, s.Get()) == Update16(old(s.Get()), c)
  {
    var r := Update16(s.Get(), c);
    ok := r.ok;
    s.Set(r.st);
  }

  /** extract_leader_value(state) */
  method ExtractLeaderValue(s: MbState) returns (u: u16)
    modifies s
    ensures LeadUnit(u, s.Get()) == LeaderValue(old(s.Get()))
  {
    var r := LeaderValue(s.Get());
    u := r.u;
    s.Set(r.st);
  }

  // ---------------------------------------------------------------------
  // The facet

  /** do_max_length: four bytes, the longest UTF-8 form of a code point
      UTF-16 can carry. */
  function DoMaxLength(): (r: int)
  {
    4
  }

  /** Every code point a UTF-16 stream can carry fits do_max_length bytes,
      and the largest one needs all of them. */
  lemma MaxLengthCovers(c: u32)
    requires c <= 0x10_FFFF
    ensures |Encode(c)| <= DoMaxLength()
    ensures |Encode(0x10_FFFF)| == DoMaxLength()
  {
    BytesNeededBands(c);
    BytesNeededBands(0x10_FFFF);
  }

  /** do_unshift: flush the continuation bytes still owed. Returns ok iff
      nothing is owed any more; with nothing owed it writes nothing. */
  method DoUnshift(s: MbState, dst: array<byte>, toBegin: nat) returns (res: Result, toNext: nat)
    requires toBegin <= dst.Length
    requires 0 <= s.count < DoMaxLength()
    modifies s, dst
    ensures toBegin <= toNext <= dst.Length
    ensures dst[..toNext] + Pending(s.Get()) == old(dst[..toBegin]) + Pending(old(s.Get()))
    ensures s.value == old(s.value) && 0 <= s.count <= old(s.count)
    ensures toNext - toBegin == old(s.count) - s.count
    ensures res == Ok <==> s.count == 0
    ensures res != Ok ==> res == Partial && toNext == dst.Length
    ensures forall i :: 0 <= i < toBegin ==> dst[i] == old(dst[i])
    ensures forall i :: toNext <= i < dst.Length ==> dst[i] == old(dst[i])
  {
    toNext := DrainPending(s, dst, toBegin);
    res := if s.count == 0 then Ok else Partial;
  }

  /** How the facet's state stands to the decoder's after the same units:
      while continuation bytes are owed the decoder is idle with the same
      code point; otherwise the two agree. */
  predicate Tracks(s: St, t: St)
  {
    if s.count > 0 then t == St(0, s.value) else s == t
  }

  /** The state do_out decodes from: a state owing bytes is drained first. */
  function Drained(st: St): (r: St)
  {
    if st.count > 0 then St(0, st.value) else st
  }

  predicate AllScalar(cs: seq<u32>)
  {
    forall i :: 0 <= i < |cs| ==> Scalar(cs[i])
  }

  lemma Decode16Snoc(st: St, us: seq<u16>, n: nat)
    requires n < |us|
    ensures Decode16(st, us[..n + 1]) == Feed16Unit(Decode16(st, us[..n]), us[n])
  {
    assert us[..n + 1][..n] == us[..n];
  }

  /** The update half of a do_out iteration on a state that owes no
      bytes: feed the next unit to update_mbstate. A rejected unit is not
      consumed; an accepted one extends the decoding by at most one code
      point, which is then in the state. */
  method TakeUnit(s: MbState, src: array<u16>, fromNext: nat, ghost st1: St)
    returns (ok: bool)
    requires fromNext < src.Length
    requires s.count <= 0 && Awaits(s.Get())
    requires var d := Decode16(st1, src[..fromNext]);
      d.ok && s.Get() == d.st && AllScalar(d.cps)
    modifies s
    ensures s.count <= 0 && Awaits(s.Get())
    ensures !ok ==> s.Get() == old(s.Get()) && !Update16(s.Get(), src[fromNext]).ok
    ensures ok ==> var d0 := Decode16(st1, src[..fromNext]);
      var d1 := Decode16(st1, src[..fromNext + 1]);
      d1.ok && s.Get() == d1.st && AllScalar(d1.cps)
      && (s.count != 0 ==> d1.cps == d0.cps)
      && (s.count == 0 ==> d1.cps == d0.cps + [s.value] && Scalar(s.value))
  {
    ghost var d0 := Decode16(st1, src[..fromNext]);
    Decode16Snoc(st1, src[..], fromNext);
    assert src[..][..fromNext + 1] == src[..fromNext + 1] && src[..][..fromNext] == src[..fromNext];
    Feed16UnitScalar(d0, src[fromNext]);
    ok := UpdateMbstate(s, src[fromNext]);
    if ok && s.count == 0 {
      ghost var d1 := Decode16(st1, src[..fromNext + 1]);
      assert d1.cps[|d1.cps| - 1] == s.value;
    }
  }

  /** How do_out stands between iterations: the decoding d of the units
      consumed is well formed, the state tracks the decoder's, and the
      bytes written, followed by those still owed, are `owed` followed by
      the UTF-8 forms of the code points decoded. */
  predicate OutAgrees(st: St, d: Feed16, written: seq<byte>, owed: seq<byte>, maxcode: u32)
  {
    d.ok && AllScalar(d.cps) && st.count < DoMaxLength() && Awaits(st) && Tracks(st, d.st)
    && AllEncodable(d.cps, maxcode) && written + Pending(st) == owed + EncodeAll(d.cps)
  }

  /** do_out's result against its state: ok while no bytes are owed,
      partial, with the destination full, while some are. */
  predicate OutResult(res: Result, st: St, full: bool)
  {
    (res == Ok <==> st.count <= 0) && (res == Partial <==> st.count > 0) && (res == Partial ==> full)
  }

  /** do_out stopped at a unit update_mbstate rejects, which is not
      consumed; the state is the decoder's. */
  predicate UnitRejected(st: St, d: Feed16, next: u16, written: seq<byte>, owed: seq<byte>, maxcode: u32)
  {
    d.ok && AllScalar(d.cps) && st == d.st && !Update16(st, next).ok
    && AllEncodable(d.cps, maxcode) && written == owed + EncodeAll(d.cps)
  }

  /** do_out stopped at a code point extract_leader_byte rejects, the last
      one decoded: a zero byte stands where its leader byte would be. */
  predicate LeaderRejected(st: St, d: Feed16, written: seq<byte>, owed: seq<byte>, maxcode: u32)
  {
    d.ok && AllScalar(d.cps) && st.count < 0 && d.cps != []
    && !Encodable(d.cps[|d.cps| - 1], maxcode) && AllEncodable(d.cps[..|d.cps| - 1], maxcode)
    && written == owed + EncodeAll(d.cps[..|d.cps| - 1]) + [0]
  }

  /** The leader half of a do_out iteration, once the last code point of
      the decoding d is complete: write extract_leader_byte's byte. A
      rejected code point still has its (zero) byte written. */
  method PutLeader(s: MbState, maxcode: u32, dst: array<byte>, toNext: nat,
                   ghost d: Feed16, ghost owed: seq<byte>)
    requires toNext < dst.Length
    requires d.ok && AllScalar(d.cps) && d.cps != [] && s.Get() == d.st
    requires s.count == 0 && s.value == d.cps[|d.cps| - 1]
    requires AllEncodable(d.cps[..|d.cps| - 1], maxcode)
    requires dst[..toNext] == owed + EncodeAll(d.cps[..|d.cps| - 1])
    modifies s, dst
    ensures forall i :: 0 <= i < dst.Length && i != toNext ==> dst[i] == old(dst[i])
    ensures s.count < 0 ==> LeaderRejected(s.Get(), d, dst[..toNext + 1], owed, maxcode)
    ensures s.count >= 0 ==> OutAgrees(s.Get(), d, dst[..toNext + 1], owed, maxcode)
  {
    ghost var cps := d.cps[..|d.cps| - 1];
    var c := s.value;
    assert d.cps == cps + [c];
    assert Scalar(c);
    BytesNeededBands(c);
    var lead := ExtractLeaderByte(s, maxcode);
    ghost var pre := dst[..toNext];
    dst[toNext] := lead;
    assert dst[..toNext + 1] == pre + [lead];
    if s.count >= 0 {
      LeadStep(pre, owed, cps, c, maxcode);
    }
  }

  /** A completed code point in a do_out iteration, the last one of the
      decoding d: its leader byte, then as many of its continuation bytes
      as fit. */
  method EmitCodePoint(s: MbState, maxcode: u32, dst: array<byte>, toNext: nat,
                       ghost d: Feed16, ghost owed: seq<byte>)
    returns (res: Result, to': nat)
    requires toNext < dst.Length
    requires d.ok && AllScalar(d.cps) && d.cps != [] && s.Get() == d.st
    requires s.count == 0 && s.value == d.cps[|d.cps| - 1]
    requires AllEncodable(d.cps[..|d.cps| - 1], maxcode)
    requires dst[..toNext] == owed + EncodeAll(d.cps[..|d.cps| - 1])
    modifies s, dst
    ensures toNext < to' <= dst.Length
    ensures forall i :: 0 <= i < toNext ==> dst[i] == old(dst[i])
    ensures forall i :: to' <= i < dst.Length ==> dst[i] == old(dst[i])
    ensures res == Error ==> to' == toNext + 1 && LeaderRejected(s.Get(), d, dst[..to'], owed, maxcode)
    ensures res != Error ==>
      OutResult(res, s.Get(), to' == dst.Length) && OutAgrees(s.Get(), d, dst[..to'], owed, maxcode)
  {
    PutLeader(s, maxcode, dst, toNext, d, owed);
    to' := toNext + 1;
    if s.count < 0 {
      return Error, to';
    }
    res := Ok;
    if s.count > 0 {
      ghost var before := s.Get();
      ghost var written := dst[..to'];
      res, to' := DoUnshift(s, dst, to');
      assert dst[..to'] + Pending(s.Get()) == written + Pending(before);
    }
  }

  /** One iteration of the do_out loop on a state that owes no bytes:
      take a unit and, when it completes a code point, write that code
      point's bytes. Progress, or an error, is reported against the
      decoding of the units consumed. */
  method OutIteration(s: MbState, maxcode: u32, src: array<u16>, dst: array<byte>,
                      fromNext: nat, toNext: nat, ghost st1: St, ghost owed: seq<byte>)
    returns (res: Result, from': nat, to': nat)
    requires fromNext < src.Length && toNext < dst.Length && s.count <= 0
    requires OutAgrees(s.Get(), Decode16(st1, src[..fromNext]), dst[..toNext], owed, maxcode)
    modifies s, dst
    ensures fromNext <= from' <= src.Length && toNext <= to' <= dst.Length
    ensures res != Error ==> from' + to' > fromNext + toNext
    ensures forall i :: to' <= i < dst.Length ==> dst[i] == old(dst[i])
    ensures res != Error ==>
      OutResult(res, s.Get(), to' == dst.Length)
      && OutAgrees(s.Get(), Decode16(st1, src[..from']), dst[..to'], owed, maxcode)
    ensures res == Error ==>
      (from' < src.Length && UnitRejected(s.Get(), Decode16(st1, src[..from']), src[from'], dst[..to'], owed, maxcode))
      || LeaderRejected(s.Get(), Decode16(st1, src[..from']), dst[..to'], owed, maxcode)
  {
    ghost var d0 := Decode16(st1, src[..fromNext]);
    assert dst[..toNext] == owed + EncodeAll(d0.cps);
    var ok := TakeUnit(s, src, fromNext, st1);
    if !ok {
      assert UnitRejected(s.Get(), d0, src[fromNext], dst[..toNext], owed, maxcode);
      return Error, fromNext, toNext;
    }
    from' := fromNext + 1;
    ghost var d := Decode16(st1, src[..from']);
    if s.count == 0 {
      assert d.cps[..|d.cps| - 1] == d0.cps;
      res, to' := EmitCodePoint(s, maxcode, dst, toNext, d, owed);
    } else {
      assert d.cps == d0.cps && d.st == s.Get();
      res, to' := Ok, toNext;
    }
  }

  /** do_out, with the owed continuation bytes drained before the first
      unit is taken: encode the units of src into dst. The bytes written,
      followed by those still owed, are the bytes owed on entry followed
      by the UTF-8 forms of the code points the consumed units decode to.
      The call stops at a unit update_mbstate rejects or at a code point
      extract_leader_byte rejects (error), when the destination is full,
      or when the source is spent; ok does not imply that every unit was
      consumed, nor that no high surrogate is left awaiting its pair. */
  method DoOut(s: MbState, maxcode: u32, src: array<u16>, dst: array<byte>)
    returns (res: Result, fromNext: nat, toNext: nat)
    requires s.count < DoMaxLength() && Awaits(s.Get())
    modifies s, dst
    ensures fromNext <= src.Length && toNext <= dst.Length
    ensures forall i :: toNext <= i < dst.Length ==> dst[i] == old(dst[i])
    ensures var d := Decode16(Drained(old(s.Get())), src[..fromNext]);
      (res != Error ==> OutAgrees(s.Get(), d, dst[..toNext], Pending(old(s.Get())), maxcode))
      && (res == Error ==>
            (fromNext < src.Length && UnitRejected(s.Get(), d, src[fromNext], dst[..toNext], Pending(old(s.Get())), maxcode))
            || LeaderRejected(s.Get(), d, dst[..toNext], Pending(old(s.Get())), maxcode))
    ensures res != Error ==> OutResult(res, s.Get(), toNext == dst.Length)
    ensures res == Ok ==> fromNext == src.Length || toNext == dst.Length
  {
    fromNext, toNext := 0, 0;
    ghost var owed := Pending(s.Get());
    ghost var st1 := Drained(s.Get());
    assert src[..0] == [] && dst[..0] == [];
    res := Ok;
    if s.count > 0 {
      res, toNext := DoUnshift(s, dst, 0);
    }
    while toNext < dst.Length && fromNext < src.Length && res == Ok
      invariant fromNext <= src.Length && toNext <= dst.Length
      invariant res != Error && OutResult(res, s.Get(), toNext == dst.Length)
      invariant OutAgrees(s.Get(), Decode16(st1, src[..fromNext]), dst[..toNext], owed, maxcode)
      invariant forall i :: toNext <= i < dst.Length ==> dst[i] == old(dst[i])
      decreases src.Length - fromNext + dst.Length - toNext
    {
      res, fromNext, toNext := OutIteration(s, maxcode, src, dst, fromNext, toNext, st1, owed);
      if res == Error {
        return;
      }
    }
  }

  // ---------------------------------------------------------------------
  // do_in and do_length

  /** How the facet's state stands to the UTF-8 decoder's after the same
      bytes: a state with a low surrogate queued has a complete code point
      behind it; otherwise the counts agree, and so do the values while a
      sequence is open. The value of an idle state does not matter to
      update_mbstate. */
  predicate Resumes(s: St, t: St)
  {
    if s.count < 0 then t.count == 0
    else s.count == t.count && (s.count != 0 ==> s.value == t.value)
  }

  /** The UTF-8 decoder's view of the state do_in starts from: a queued
      unit is written first, leaving the state idle. */
  function Flushed(st: St): (r: St)
  {
    if st.count < 0 then St(0, st.value) else st
  }

  /** update_mbstate(char) reads `value` only while a sequence is open. */
  lemma Update8Resumes(s: St, t: St, b: byte)
    requires s.count >= 0 && Resumes(s, t)
    ensures Update8(s, b).ok == Update8(t, b).ok
    ensures Update8(s, b).ok ==> Update8(s, b).st == Update8(t, b).st
  {
  }

  /** The units of a code point, split after the first. */
  lemma UnitsAllSnoc(cs: seq<u32>, c: u32)
    ensures UnitsAll(cs + [c]) == UnitsAll(cs) + UnitsOf(c)
  {
    assert (cs + [c])[..|cs|] == cs;
  }

  /** The decoding half of a do_in iteration on a state with nothing
      queued: feed the next byte to update_mbstate(char). A rejected byte
      is not consumed; an accepted one extends the decoding by at most one
      code point, which is then in the state. */
  method TakeByte(s: MbState, src: array<byte>, fromNext: nat, ghost st1: St)
    returns (ok: bool)
    requires fromNext < src.Length && s.count >= 0
    requires var d := Decode8(st1, src[..fromNext]); d.ok && Resumes(s.Get(), d.st)
    modifies s
    ensures s.count >= 0
    ensures !ok ==> s.Get() == old(s.Get()) && !Update8(s.Get(), src[fromNext]).ok
    ensures ok ==> var d0 := Decode8(st1, src[..fromNext]);
      var d1 := Decode8(st1, src[..fromNext + 1]);
      d1.ok && s.Get() == d1.st
      && (s.count != 0 ==> d1.cps == d0.cps)
      && (s.count == 0 ==> d1.cps == d0.cps + [s.value])
  {
    ghost var d0 := Decode8(st1, src[..fromNext]);
    DecodeSnoc(st1, src[..], fromNext);
    assert src[..][..fromNext + 1] == src[..fromNext + 1] && src[..][..fromNext] == src[..fromNext];
    Update8Resumes(s.Get(), d0.st, src[fromNext]);
    ok := Utf8Conv.UpdateMbstate(s, src[fromNext]);
  }

  /** Write the queued low surrogate and go idle. */
  method FlushQueued(s: MbState, dst: array<u16>, toNext: nat) returns (to': nat)
    requires toNext < dst.Length && s.count < 0
    modifies s, dst
    ensures to' == toNext + 1 && s.Get() == St(0, old(s.value))
    ensures dst[..to'] == old(dst[..toNext]) + Queued(old(s.Get()))
    ensures forall i :: 0 <= i < dst.Length && i != toNext ==> dst[i] == old(dst[i])
  {
    dst[toNext] := s.value % 0x1_0000;
    to' := toNext + 1;
    s.count := 0;
  }

  /** The emitting half of a do_in iteration, once a code point c is
      complete: write extract_leader_value's unit; the low surrogate of a
      supplementary code point stays queued. */
  method PutUnit(s: MbState, dst: array<u16>, toNext: nat, ghost cps: seq<u32>, ghost queued: seq<u16>)
    returns (to': nat)
    requires toNext < dst.Length && s.count == 0
    requires dst[..toNext] == queued + UnitsAll(cps)
    modifies s, dst
    ensures to' == toNext + 1
    ensures dst[..to'] + Queued(s.Get()) == queued + UnitsAll(cps + [old(s.value)])
    ensures Resumes(s.Get(), St(0, old(s.value)))
    ensures forall i :: 0 <= i < dst.Length && i != toNext ==> dst[i] == old(dst[i])
  {
    ghost var c := s.value;
    ghost var pre := dst[..toNext];
    LeaderThenQueued(s.Get());
    var u := ExtractLeaderValue(s);
    dst[toNext] := u;
    assert dst[..toNext + 1] == pre + [u];
    to' := toNext + 1;
    UnitsAllSnoc(cps, c);
    SeqAssoc(pre, [u], Queued(s.Get()));
    SeqAssoc(queued, UnitsAll(cps), UnitsOf(c));
  }

  /** do_in, with room re-checked after a queued low surrogate is
      written: decode the bytes of src into UTF-16 units. The units
      written, followed by any still queued, are those queued on entry
      followed by the UTF-16 forms of the code points the consumed bytes
      decode to. An offending byte stops the call with error and is not
      consumed. The call never returns partial: it returns ok when the
      destination is full even with bytes left, and ok when the bytes end
      in the middle of a sequence. */
  method DoIn(s: MbState, src: array<byte>, dst: array<u16>)
    returns (res: Result, fromNext: nat, toNext: nat)
    modifies s, dst
    ensures fromNext <= src.Length && toNext <= dst.Length
    ensures forall i :: toNext <= i < dst.Length ==> dst[i] == old(dst[i])
    ensures var d := Decode8(Flushed(old(s.Get())), src[..fromNext]);
      d.ok && Resumes(s.Get(), d.st)
      && dst[..toNext] + Queued(s.Get()) == Queued(old(s.Get())) + UnitsAll(d.cps)
    ensures res != Partial
    ensures res == Error ==>
      fromNext < src.Length && s.count >= 0 && !Update8(s.Get(), src[fromNext]).ok
    ensures res == Ok ==> fromNext == src.Length || toNext == dst.Length
    ensures res == Ok && s.count < 0 ==> toNext == dst.Length
  {
    fromNext, toNext := 0, 0;
    ghost var st1 := Flushed(s.Get());
    ghost var queued := Queued(s.Get());
    assert src[..0] == [] && dst[..0] == [];
    ghost var d := Decode8(st1, src[..0]);
    while fromNext < src.Length && toNext < dst.Length
      invariant fromNext <= src.Length && toNext <= dst.Length
      invariant d == Decode8(st1, src[..fromNext])
      invariant d.ok && Resumes(s.Get(), d.st)
      invariant dst[..toNext] + Queued(s.Get()) == queued + UnitsAll(d.cps)
      invariant forall i :: toNext <= i < dst.Length ==> dst[i] == old(dst[i])
    {
      if s.count < 0 {
        toNext := FlushQueued(s, dst, toNext);
        if toNext == dst.Length {
          break;
        }
      }
      assert dst[..toNext] + Queued(s.Get()) == dst[..toNext];
      ghost var cps := d.cps;
      var ok := TakeByte(s, src, fromNext, st1);
      if !ok {
        res := Error;
        return;
      }
      fromNext := fromNext + 1;
      d := Decode8(st1, src[..fromNext]);
      if s.count == 0 {
        toNext := PutUnit(s, dst, toNext, cps, queued);
      }
    }
    if s.count < 0 && toNext < dst.Length {
      toNext := FlushQueued(s, dst, toNext);
    }
    res := Ok;
  }

  /** Every code point is within the range UTF-16 can carry. */
  predicate AllUtf16(cs: seq<u32>)
  {
    forall i :: 0 <= i < |cs| ==> cs[i] <= 0x10_FFFF
  }

  /** The state do_length leaves after the bytes decoded to d: `value`
      is reset to zero after each code point counted. */
  function Counted(d: Feed): (r: St)
  {
    if d.st.count == 0 && d.cps != [] then St(0, 0) else d.st
  }

  /** A code point more adds its number of UTF-16 units to the count. */
  lemma CountStep(cps: seq<u32>, c: u32, count: nat, max: nat)
    requires AllUtf16(cps) && count == |UnitsAll(cps)| && count < max && c <= 0x10_FFFF
    ensures var cps' := cps + [c];
      AllUtf16(cps') && cps'[..|cps'| - 1] == cps
      && |UnitsAll(cps')| == count + (if c < 0x1_0000 then 1 else 2) <= max + 1
  {
    var cps' := cps + [c];
    assert cps'[..|cps|] == cps;
    forall i | 0 <= i < |cps'|
      ensures cps'[i] <= 0x10_FFFF
    {
      if i < |cps| {
        assert cps'[i] == cps[i];
      }
    }
    UnitsAllSnoc(cps, c);
    assert |UnitsAll(cps')| == |UnitsAll(cps)| + |UnitsOf(c)|;
  }

  /** One byte of do_length: feed it to update_mbstate(char) and, on a
      completed code point, add its number of UTF-16 units to `count`. A
      code point above 0x10FFFF stops the count (`over`); its last byte is
      then consumed by the state but not counted in the length. */
  method CountByte(s: MbState, src: array<byte>, n: nat, count: nat, max: nat, ghost st0: St)
    returns (ok: bool, over: bool, count': nat)
    requires n < src.Length && count < max
    requires var d := Decode8(st0, src[..n]);
      d.ok && AllUtf16(d.cps) && count == |UnitsAll(d.cps)|
      && (d.cps != [] ==> |UnitsAll(d.cps[..|d.cps| - 1])| < max) && s.Get() == Counted(d)
    modifies s
    ensures var d := Decode8(st0, src[..n]);
      (!ok ==> !over && s.Get() == old(s.Get()) && !Update8(d.st, src[n]).ok)
      && (ok && over ==>
            Update8(d.st, src[n]) == Step(true, s.Get()) && s.count == 0 && s.value > 0x10_FFFF)
    ensures ok && !over ==> var d := Decode8(st0, src[..n + 1]);
      d.ok && AllUtf16(d.cps) && count' == |UnitsAll(d.cps)| && count' <= max + 1
      && (d.cps != [] ==> |UnitsAll(d.cps[..|d.cps| - 1])| < max) && s.Get() == Counted(d)
  {
    ghost var d0 := Decode8(st0, src[..n]);
    DecodeSnoc(st0, src[..], n);
    assert src[..][..n + 1] == src[..n + 1] && src[..][..n] == src[..n];
    if s.count >= 0 {
      Update8Resumes(s.Get(), d0.st, src[n]);
    }
    ok := Utf8Conv.UpdateMbstate(s, src[n]);
    over, count' := false, count;
    if !ok {
      return;
    }
    ghost var d1 := Decode8(st0, src[..n + 1]);
    if s.count == 0 {
      var c := s.value;
      assert d1.cps == d0.cps + [c];
      if c > 0x10_FFFF {
        return ok, true, count;
      }
      CountStep(d0.cps, c, count, max);
      count' := count + if c < 0x1_0000 then 1 else 2;
      s.value := 0;
    } else {
      assert d1.cps == d0.cps;
    }
  }

  /** do_length: how many bytes of src the UTF-16 units of their code
      points fit in `max`. The count goes up by two for a code point above
      0xFFFF, so it can end one above max; it stops once it reaches max,
      at a byte the UTF-8 decoder rejects, and at a completed code point
      above 0x10FFFF, whose last byte is consumed by the state but not
      counted in the result. */
  method DoLength(s: MbState, src: array<byte>, max: nat) returns (n: nat)
    modifies s
    ensures n <= src.Length
    ensures var d := Decode8(old(s.Get()), src[..n]);
      d.ok && AllUtf16(d.cps) && |UnitsAll(d.cps)| <= max + 1
      && (d.cps != [] ==> |UnitsAll(d.cps[..|d.cps| - 1])| < max)
      && ((s.Get() == Counted(d)
           && (n < src.Length ==> |UnitsAll(d.cps)| >= max || !Update8(d.st, src[n]).ok))
          || (n < src.Length && Update8(d.st, src[n]) == Step(true, s.Get())
              && s.count == 0 && s.value > 0x10_FFFF))
  {
    n := 0;
    var count := 0;
    ghost var st0 := s.Get();
    assert src[..0] == [];
    while n < src.Length && count < max
      invariant n <= src.Length
      invariant var d := Decode8(st0, src[..n]);
        d.ok && AllUtf16(d.cps) && count == |UnitsAll(d.cps)| && count <= max + 1
        && (d.cps != [] ==> |UnitsAll(d.cps[..|d.cps| - 1])| < max) && s.Get() == Counted(d)
    {
      var ok, over;
      ok, over, count := CountByte(s, src, n, count, max, st0);
      if !ok || over {
        return;
      }
      n := n + 1;
    }
  }

  // ---------------------------------------------------------------------
  // Loop bodies as written, where they differ from DoOut and DoIn above

  /** What one iteration of do_out does to a unit when entered with
      continuation bytes still owed: whether the unit was consumed, the
      state afterwards, and the bytes written. */
  datatype ResumedStep = ResumedStep(consumed: bool, st: St, written: seq<byte>)

  /** One do_out iteration as written, on a state with count > 0 and
      room for `room` bytes: update_mbstate(char16_t) has no branch for a
      positive count, so the unit is accepted and consumed without being
      stored, and do_unshift then drains what it can of the owed bytes. */
  function OutResumedAsWritten(st: St, u: u16, room: nat): (r: ResumedStep)
    requires st.count > 0
    ensures r.consumed && r.st.value == st.value
    ensures |r.written| <= room && r.written + Pending(r.st) == Pending(st)
  {
    var step := Update16(st, u);
    var k := if room < step.st.count then room else step.st.count;
    PendingDrop(step.st, k);
    ResumedStep(step.ok, St(step.st.count - k, step.st.value), Pending(step.st)[..k])
  }

  /** The unit is lost: the iteration comes out the same whatever unit
      it consumed. Resumed with one byte of U+00E9 owed and room for one,
      'A' is consumed, 0xA9 is written, and the state is left idle with
      nothing of 'A' anywhere. */
  lemma ResumedOutDropsUnit(st: St, u: u16, u': u16, room: nat)
    requires st.count > 0
    ensures OutResumedAsWritten(st, u, room) == OutResumedAsWritten(st, u', room)
    ensures OutResumedAsWritten(St(1, 0xE9), 0x41, 1) == ResumedStep(true, St(0, 0xE9), [0xA9])
  {
    assert Pending(St(1, 0xE9)) == [NextByte(St(1, 0xE9))] + Pending(St(0, 0xE9));
  }

  /** The units one do_in iteration writes, whether its byte was
      accepted, and the state it leaves. */
  datatype InStep = InStep(written: seq<u16>, ok: bool, st: St)

  /** One do_in iteration as written: a queued low surrogate is written,
      the byte is fed to update_mbstate(char), and a completed code point
      has extract_leader_value's unit written next, with no second look
      at the room left. */
  function InIterationAsWritten(st: St, b: byte): (r: InStep)
    ensures |Queued(st)| <= |r.written| <= 2 && r.written[..|Queued(st)|] == Queued(st)
    ensures r.ok == Update8(Flushed(st), b).ok
  {
    var step := Update8(Flushed(st), b);
    if step.ok && step.st.count == 0 then
      var l := LeaderValue(step.st);
      InStep(Queued(st) + [l.u], true, l.st)
    else
      InStep(Queued(st), step.ok, step.st)
  }

  /** The iteration writes two units, though its guard only saw room for
      one, exactly when a low surrogate was queued and the byte completes
      a code point: after the tail of U+10000, the byte 'A' makes do_in
      write 0xDC00 and 0x41. */
  lemma InIterationOverruns(st: St, b: byte)
    ensures var step := Update8(Flushed(st), b);
      |InIterationAsWritten(st, b).written| == 2 <==> st.count < 0 && step.ok && step.st.count == 0
    ensures InIterationAsWritten(St(-1, 0xDC00), 0x41).written == [0xDC00, 0x41]
  {
  }
}
