/** UTF-8 byte primitives used by both codecvt facets: the length bands,
    the leader byte and continuation bytes of the encoder, and the
    one-byte step of the decoder.  The byte layout is that of section 3 of
    RFC 3629 extended with the 5- and 6-byte forms of section 2 of RFC 2279.

    The conversion state mirrors the two fields of mbstate_t that the
    codec uses: `count` (__count) and `value` (__value.__wch). */
module Utf8Conv {
  import opened Seqs

  type byte = x: int | 0 <= x < 0x100
  type u16 = x: int | 0 <= x < 0x1_0000
  type u32 = x: int | 0 <= x < 0x1_0000_0000

  /** codecvt_base::result */
  datatype Result = Ok | Partial | Error

  /** A snapshot of the conversion state. */
  datatype St = St(count: int, value: u32)

  /** The caller-owned mbstate_t, updated in place by the facets. */
  class MbState {
    var count: int
    var value: u32

    /** A zero-initialised state, `mbstate_t state = {0, {0}}`. */
    constructor ()
      ensures count == 0 && value == 0
    {
      count := 0;
      value := 0;
    }

    function Get(): (st: St)
      reads this
    {
      St(count, value)
    }

    method Set(st: St)
      modifies this
      ensures Get() == st
    {
      count, value := st.count, st.value;
    }
  }

  // ---------------------------------------------------------------------
  // Powers and length bands

  /** v shifted right by 6k bits (v / 64^k). Every u32 value lies below
      64^6, so from k = 6 on nothing is left. */
  function Shifted(v: u32, k: nat): (r: u32)
    ensures r <= v
  {
    if k == 0 then v else if k == 1 then v / 0x40 else if k == 2 then v / 0x1000
    else if k == 3 then v / 0x4_0000 else if k == 4 then v / 0x100_0000
    else if k == 5 then v / 0x4000_0000 else 0
  }

  /** The first value an n-byte form can no longer carry: 2^7 for the
      one-byte form, otherwise 2^(5n+1) (7 - n payload bits in the leader
      and six in each continuation byte). */
  function Capacity(n: nat): (r: nat)
  {
    if n <= 1 then 0x80 else if n == 2 then 0x800 else if n == 3 then 0x1_0000
    else if n == 4 then 0x20_0000 else if n == 5 then 0x400_0000 else 0x8000_0000
  }

  /** Shortest form of length at least n that holds c; -1 past six bytes. */
  function ShortestFrom(c: nat, n: nat): (r: int)
    requires 1 <= n <= 7
    ensures r == -1 || n <= r <= 6
    decreases 7 - n
  {
    if n == 7 then -1
    else if c < Capacity(n) then n
    else ShortestFrom(c, n + 1)
  }

  /** bytes_needed: the length of the shortest UTF-8 form of c, or -1 when
      no form of at most six bytes carries it. */
  function BytesNeeded(c: u32): (r: int)
    ensures r == -1 || 1 <= r <= 6
  {
    ShortestFrom(c, 1)
  }

  lemma {:induction false} BytesNeededBands(c: u32)
    ensures c < 0x80 ==> BytesNeeded(c) == 1
    ensures 0x80 <= c < 0x800 ==> BytesNeeded(c) == 2
    ensures 0x800 <= c < 0x1_0000 ==> BytesNeeded(c) == 3
    ensures 0x1_0000 <= c < 0x20_0000 ==> BytesNeeded(c) == 4
    ensures 0x20_0000 <= c < 0x400_0000 ==> BytesNeeded(c) == 5
    ensures 0x400_0000 <= c < 0x8000_0000 ==> BytesNeeded(c) == 6
    ensures 0x8000_0000 <= c ==> BytesNeeded(c) == -1
  {
    assert ShortestFrom(c, 6) == (if c < 0x8000_0000 then 6 else -1);
    assert ShortestFrom(c, 5) == (if c < 0x400_0000 then 5 else ShortestFrom(c, 6));
    assert ShortestFrom(c, 4) == (if c < 0x20_0000 then 4 else ShortestFrom(c, 5));
    assert ShortestFrom(c, 3) == (if c < 0x1_0000 then 3 else ShortestFrom(c, 4));
    assert ShortestFrom(c, 2) == (if c < 0x800 then 2 else ShortestFrom(c, 3));
  }

  /** A longer code point never needs a shorter form. */
  lemma BytesNeededMonotone(a: u32, b: u32)
    requires a <= b < 0x8000_0000
    ensures 1 <= BytesNeeded(a) <= BytesNeeded(b)
  {
    BytesNeededBands(a);
    BytesNeededBands(b);
  }

  // ---------------------------------------------------------------------
  // Encoder: extract_leader_byte and next_byte

  /** Whether extract_leader_byte accepts c under the ceiling maxcode
      (max_encodable_value()). */
  predicate Encodable(c: u32, maxcode: u32)
  {
    c <= maxcode && c < 0x8000_0000
  }

  /** The fixed high bits of the leader byte of an n-byte form. */
  function LeadMark(n: nat): (b: byte)
  {
    if n <= 1 then 0 else if n == 2 then 0xC0 else if n == 3 then 0xE0
    else if n == 4 then 0xF0 else if n == 5 then 0xF8 else 0xFC
  }

  /** The leader byte of the shortest form of c: the lead mark of its
      length followed by the digits left over after the continuation
      bytes have taken six bits each. */
  function LeaderByteOf(c: u32): (b: byte)
    requires c < 0x8000_0000
    ensures c < 0x80 ==> b == c
    ensures c >= 0x80 ==> 0xC0 <= b < 0xFE
  {
    BytesNeededBands(c);
    var n := BytesNeeded(c);
    LeadMark(n) + Shifted(c, n - 1)
  }

  /** Result of extract_leader_byte: the byte and the new state. */
  datatype Lead = Lead(b: byte, st: St)

  /** extract_leader_byte: takes the code point held in `value` and
      returns its leader byte, leaving in `count` the number of
      continuation bytes still owed; a code point above the ceiling leaves
      `count` negative (and the byte is 0). `value` is not repacked. */
  function ExtractLeader(st: St, maxcode: u32): (r: Lead)
    ensures Encodable(st.value, maxcode) ==> r.st == St(BytesNeeded(st.value) - 1, st.value)
    ensures !Encodable(st.value, maxcode) ==> r.st.count < 0
    ensures r.st.value == st.value
  {
    var c := st.value;
    if Encodable(c, maxcode) then
      BytesNeededBands(c);
      Lead(LeaderByteOf(c), St(BytesNeeded(c) - 1, c))
    else
      Lead(0, St(-1, c))
  }

  /** next_byte: the continuation byte for position `count` (counting
      down to 1) of the code point in `value`. The caller decrements count. */
  function NextByte(st: St): (b: byte)
    requires st.count > 0
    ensures 0x80 <= b < 0xC0
  {
    0x80 + Shifted(st.value, st.count - 1) % 64
  }

  /** The continuation bytes an emitting state still owes, in order. */
  function Pending(st: St): (r: seq<byte>)
    ensures |r| == if st.count > 0 then st.count else 0
    decreases if st.count > 0 then st.count else 0
  {
    if st.count <= 0 then [] else [NextByte(st)] + Pending(St(st.count - 1, st.value))
  }

  /** Every byte owed is a continuation byte. */
  lemma {:induction false} PendingContinuation(st: St)
    ensures forall i :: 0 <= i < |Pending(st)| ==> 0x80 <= Pending(st)[i] < 0xC0
    decreases if st.count > 0 then st.count else 0
  {
    if st.count > 0 {
      PendingContinuation(St(st.count - 1, st.value));
    }
  }

  /** After k more decrements of count a state owes the bytes it owed,
      less the first k; the k-th of them is next_byte at count - k. */
  lemma {:induction false} PendingDrop(st: St, k: nat)
    requires k <= st.count
    ensures Pending(St(st.count - k, st.value)) == Pending(st)[k..]
    ensures k < st.count ==> Pending(st)[k] == NextByte(St(st.count - k, st.value))
    decreases k
  {
    if k > 0 {
      PendingDrop(st, k - 1);
      var m := St(st.count - (k - 1), st.value);
      assert Pending(m) == [NextByte(m)] + Pending(St(st.count - k, st.value));
    }
  }

  /** The UTF-8 form of c: the leader byte, then the continuation bytes. */
  function Encode(c: u32): (r: seq<byte>)
    requires c < 0x8000_0000
    ensures |r| == BytesNeeded(c)
  {
    BytesNeededBands(c);
    [LeaderByteOf(c)] + Pending(St(BytesNeeded(c) - 1, c))
  }

  predicate AllEncodable(cs: seq<u32>, maxcode: u32)
  {
    forall i :: 0 <= i < |cs| ==> Encodable(cs[i], maxcode)
  }

  /** The UTF-8 forms of a sequence of code points, concatenated. */
  function EncodeAll(cs: seq<u32>): (r: seq<byte>)
    requires forall i :: 0 <= i < |cs| ==> cs[i] < 0x8000_0000
  {
    if cs == [] then [] else EncodeAll(cs[..|cs| - 1]) + Encode(cs[|cs| - 1])
  }

  // ---------------------------------------------------------------------
  // Decoder: update_mbstate(char)

  datatype Step = Step(ok: bool, st: St)

  /** Length of the form a leader byte announces. */
  function LeadLength(b: byte): (n: nat)
    requires 0xC0 <= b < 0xFE
    ensures 2 <= n <= 6
  {
    if b < 0xE0 then 2 else if b < 0xF0 then 3 else if b < 0xF8 then 4 else if b < 0xFC then 5 else 6
  }

  /** 2^(7-n): the range of the payload bits in the leader of an n-byte form. */
  function LeadPayload(n: nat): (r: nat)
    requires 2 <= n <= 6
  {
    if n == 2 then 0x20 else if n == 3 then 0x10 else if n == 4 then 8 else if n == 5 then 4 else 2
  }

  /** utf8::update_mbstate: feed one source byte. A one-byte form or a
      leader byte needs an idle state and seeds `value` and `count`; a
      continuation byte needs `count > 0`, folds in six bits and
      decrements `count`; 0xFE and 0xFF are never valid. A rejected byte
      leaves the state as it was. */
  function Update8(st: St, b: byte): (r: Step)
    ensures !r.ok ==> r.st == st
    ensures r.ok && r.st.count == 0 ==> st.count <= 1
  {
    if b < 0x80 then
      if st.count == 0 then Step(true, St(0, b)) else Step(false, st)
    else if b < 0xC0 then
      if st.count > 0 then Step(true, St(st.count - 1, (st.value * 64 + b % 64) % 0x1_0000_0000))
      else Step(false, st)
    else if b >= 0xFE || st.count != 0 then
      Step(false, st)
    else
      var n := LeadLength(b);
      Step(true, St(n - 1, b % LeadPayload(n)))
  }

  /** Progress of a decoder over a byte stream: whether every byte so far
      was accepted, the state, and the code points completed. */
  datatype Feed = Feed(ok: bool, st: St, cps: seq<u32>)

  /** One byte more: a completed code point is appended when the byte
      brings `count` back to zero. A rejection is final. */
  function Feed8(d: Feed, b: byte): (r: Feed)
  {
    if !d.ok then d
    else
      var r := Update8(d.st, b);
      if !r.ok then Feed(false, d.st, d.cps)
      else Feed(true, r.st, if r.st.count == 0 then d.cps + [r.st.value] else d.cps)
  }

  function FeedAll8(d: Feed, bs: seq<byte>): (r: Feed)
  {
    if bs == [] then d else Feed8(FeedAll8(d, bs[..|bs| - 1]), bs[|bs| - 1])
  }

  /** The decoding of a byte stream from state st. */
  function Decode8(st: St, bs: seq<byte>): (r: Feed)
  {
    FeedAll8(Feed(true, st, []), bs)
  }

  lemma {:induction false} FeedAll8Append(d: Feed, a: seq<byte>, b: seq<byte>)
    ensures FeedAll8(d, a + b) == FeedAll8(FeedAll8(d, a), b)
    decreases |b|
  {
    if b == [] {
      assert a + b == a;
    } else {
      var b' := b[..|b| - 1];
      assert (a + b)[..|a + b| - 1] == a + b';
      assert (a + b)[|a + b| - 1] == b[|b| - 1];
      FeedAll8Append(d, a, b');
    }
  }

  /** A rejected stream stays rejected; an accepted one only appends. */
  lemma {:induction false} FeedAll8Grows(d: Feed, bs: seq<byte>)
    ensures !d.ok ==> FeedAll8(d, bs) == d
    ensures FeedAll8(d, bs).ok ==> d.ok
    ensures d.cps <= FeedAll8(d, bs).cps
    decreases |bs|
  {
    if bs != [] {
      FeedAll8Grows(d, bs[..|bs| - 1]);
    }
  }

  /** One more accepted byte extends the decoding of the bytes before it. */
  lemma DecodeSnoc(st: St, bs: seq<byte>, n: nat)
    requires n < |bs|
    ensures Decode8(st, bs[..n + 1]) == Feed8(Decode8(st, bs[..n]), bs[n])
  {
    assert bs[..n + 1][..n] == bs[..n];
  }

  // ---------------------------------------------------------------------
  // Round trip

  /** Shifting in the next digit of c: the decoder's accumulator after k
      digits of c are still to come, times 64, plus the next digit. */
  lemma DigitStep(k: nat, c: u32)
    requires 1 <= k <= 5
    ensures Shifted(c, k) * 64 + Shifted(c, k - 1) % 64 == Shifted(c, k - 1)
  {
    var a := Shifted(c, k - 1);
    assert Shifted(c, k) == a / 64 by {
      if k == 1 { } else if k == 2 { } else if k == 3 { } else if k == 4 { } else { }
    }
  }

  /** Feeding the continuation bytes owed for c to a decoder that has
      taken the leading digits of c completes c. */
  lemma {:induction false} FeedPending(k: nat, c: u32, cps: seq<u32>)
    requires 1 <= k <= 5 && c < 0x8000_0000
    ensures FeedAll8(Feed(true, St(k, Shifted(c, k)), cps), Pending(St(k, c)))
         == Feed(true, St(0, c), cps + [c])
    decreases k
  {
    var a := Shifted(c, k - 1);
    DigitStep(k, c);
    var nb := NextByte(St(k, c));
    var d0 := Feed(true, St(k, Shifted(c, k)), cps);
    var d1 := Feed8(d0, nb);
    assert d1.st == St(k - 1, a);
    var rest := Pending(St(k - 1, c));
    assert Pending(St(k, c)) == [nb] + rest;
    FeedAll8Append(d0, [nb], rest);
    assert FeedAll8(d0, [nb]) == d1 by {
      assert [nb][..0] == [];
    }
    if k == 1 {
      assert d1 == Feed(true, St(0, c), cps + [c]);
      assert rest == [];
    } else {
      assert d1 == Feed(true, St(k - 1, Shifted(c, k - 1)), cps);
      FeedPending(k - 1, c, cps);
    }
  }

  /** The leader byte of c restarts an idle decoder with the leading
      digits of c and the right number of continuation bytes owed. */
  lemma LeaderRestarts(c: u32, v: u32, cps: seq<u32>)
    requires c < 0x8000_0000
    ensures var n := BytesNeeded(c);
      Feed8(Feed(true, St(0, v), cps), LeaderByteOf(c))
        == if n == 1 then Feed(true, St(0, c), cps + [c])
           else Feed(true, St(n - 1, Shifted(c, n - 1)), cps)
  {
    BytesNeededBands(c);
  }

  /** Decoding the UTF-8 form of c from an idle state yields exactly c. */
  lemma EncodeRoundTrip(c: u32, v: u32, cps: seq<u32>)
    requires c < 0x8000_0000
    ensures FeedAll8(Feed(true, St(0, v), cps), Encode(c)) == Feed(true, St(0, c), cps + [c])
  {
    var n := BytesNeeded(c);
    BytesNeededBands(c);
    var d0 := Feed(true, St(0, v), cps);
    var lead := LeaderByteOf(c);
    var rest := Pending(St(n - 1, c));
    FeedAll8Append(d0, [lead], rest);
    assert FeedAll8(d0, [lead]) == Feed8(d0, lead) by {
      assert [lead][..0] == [];
    }
    LeaderRestarts(c, v, cps);
    if n > 1 {
      FeedPending(n - 1, c, cps);
    }
  }

  /** The encoding of a sequence splits at its last code point. */
  lemma EncodeAllSnoc(cs: seq<u32>)
    requires cs != []
    requires forall i :: 0 <= i < |cs| ==> cs[i] < 0x8000_0000
    ensures EncodeAll(cs) == EncodeAll(cs[..|cs| - 1]) + Encode(cs[|cs| - 1])
  {
  }

  /** decode(encode(cs)) == cs for every sequence of encodable code points. */
  lemma {:induction false} EncodeAllRoundTrip(cs: seq<u32>, v: u32)
    requires forall i :: 0 <= i < |cs| ==> cs[i] < 0x8000_0000
    ensures var d := Decode8(St(0, v), EncodeAll(cs));
      d.ok && d.st.count == 0 && d.cps == cs
    decreases |cs|
  {
    if cs != [] {
      var init := cs[..|cs| - 1];
      var c := cs[|cs| - 1];
      assert init + [c] == cs;
      var f0 := Feed(true, St(0, v), []);
      EncodeAllRoundTrip(init, v);
      var d := FeedAll8(f0, EncodeAll(init));
      assert d.ok && d.st.count == 0 && d.cps == init;
      EncodeAllSnoc(cs);
      FeedAll8Append(f0, EncodeAll(init), Encode(c));
      assert d == Feed(true, St(0, d.st.value), init);
      EncodeRoundTrip(c, d.st.value, init);
      calc {
        Decode8(St(0, v), EncodeAll(cs));
        FeedAll8(f0, EncodeAll(init) + Encode(c));
        FeedAll8(d, Encode(c));
        FeedAll8(Feed(true, St(0, d.st.value), init), Encode(c));
        Feed(true, St(0, c), cs);
      }
    } else {
      assert EncodeAll(cs) == [];
    }
  }

  /** Appending the leader byte of c, and owing its continuation bytes,
      extends the encoded prefix by c. */
  lemma LeadStep(pre: seq<byte>, owed: seq<byte>, cs: seq<u32>, c: u32, maxcode: u32)
    requires AllEncodable(cs, maxcode) && Encodable(c, maxcode)
    requires pre == owed + EncodeAll(cs)
    ensures AllEncodable(cs + [c], maxcode)
    ensures pre + [LeaderByteOf(c)] + Pending(St(BytesNeeded(c) - 1, c)) == owed + EncodeAll(cs + [c])
  {
    var cs' := cs + [c];
    forall i | 0 <= i < |cs'|
      ensures Encodable(cs'[i], maxcode)
    {
      if i < |cs| {
        assert cs'[i] == cs[i];
      }
    }
    assert cs'[..|cs'| - 1] == cs;
    var e := Encode(c);
    assert EncodeAll(cs') == EncodeAll(cs) + e;
    SeqAssoc(pre, [LeaderByteOf(c)], Pending(St(BytesNeeded(c) - 1, c)));
    SeqAssoc(owed, EncodeAll(cs), e);
  }

  // ---------------------------------------------------------------------
  // The primitives as the facets call them, on the caller's state

  /** utf8::extract_leader_byte(state) */
  method ExtractLeaderByte(s: MbState, maxcode: u32) returns (b: byte)
    modifies s
    ensures Lead(b, s.Get()) == ExtractLeader(old(s.Get()), maxcode)
  {
    var l := ExtractLeader(s.Get(), maxcode);
    b := l.b;
    s.Set(l.st);
  }

  /** utf8::update_mbstate(state, byte) */
  method UpdateMbstate(s: MbState, b: byte) returns (ok: bool)
    modifies s
    ensures Step(ok, s.Get()) == Update8(old(s.Get()), b)
  {
    var r := Update8(s.Get(), b);
    ok := r.ok;
    s.Set(r.st);
  }

  /** The loop both do_unshift functions share: write next_byte into
      dst[toBegin..] and decrement `count`, until `count` reaches zero or
      the destination is full. What is written, followed by what is still
      owed, is what was owed on entry. */
  method DrainPending(s: MbState, dst: array<byte>, toBegin: nat) returns (toNext: nat)
    requires toBegin <= dst.Length && s.count >= 0
    modifies s, dst
    ensures toBegin <= toNext <= dst.Length
    ensures dst[..toNext] + Pending(s.Get()) == old(dst[..toBegin]) + Pending(old(s.Get()))
    ensures s.value == old(s.value) && 0 <= s.count <= old(s.count)
    ensures toNext - toBegin == old(s.count) - s.count
    ensures s.count > 0 ==> toNext == dst.Length
    ensures forall i :: 0 <= i < toBegin ==> dst[i] == old(dst[i])
    ensures forall i :: toNext <= i < dst.Length ==> dst[i] == old(dst[i])
  {
    toNext := toBegin;
    var st := s.Get();
    ghost var owed := Pending(st);
    while toNext < dst.Length && st.count > 0
      invariant toBegin <= toNext <= dst.Length
      invariant st == St(old(s.count) - (toNext - toBegin), old(s.value)) && 0 <= st.count
      invariant forall i :: toBegin <= i < toNext ==> dst[i] == owed[i - toBegin]
      invariant forall i :: 0 <= i < toBegin ==> dst[i] == old(dst[i])
      invariant forall i :: toNext <= i < dst.Length ==> dst[i] == old(dst[i])
      modifies dst
    {
      PendingDrop(s.Get(), toNext - toBegin);
      dst[toNext] := NextByte(st);
      toNext := toNext + 1;
      st := St(st.count - 1, st.value);
    }
    PendingDrop(s.Get(), toNext - toBegin);
    WrittenPrefix(dst[..], old(dst[..]), toBegin, toNext, owed);
    s.count := st.count;
    assert s.Get() == st;
  }

  /** An array whose cells below b are unchanged and whose cells from b
      to e hold the first e - b elements of `all`: its prefix up to e,
      followed by the rest of `all`, is the old prefix up to b followed by
      all of `all`. */
  lemma WrittenPrefix<T>(a: seq<T>, a0: seq<T>, b: nat, e: nat, all: seq<T>)
    requires b <= e <= |a| == |a0| && e - b <= |all|
    requires forall i :: 0 <= i < b ==> a[i] == a0[i]
    requires forall i :: b <= i < e ==> a[i] == all[i - b]
    ensures a[..e] + all[e - b..] == a0[..b] + all
  {
    assert a[..e] == a0[..b] + all[..e - b];
    assert all == all[..e - b] + all[e - b..];
  }

}
