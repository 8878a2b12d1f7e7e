/** The oracles of the codecvt_utf8 unit test, stated against the UTF-32
    facet with its ceiling `maxcode` set to the test's max_value (the
    smaller of N and the largest value of the character type). The test
    keeps its own table of UTF-8 lengths, utf8_chars_needed, and checks
    the facet against it. */
module CodecvtUnit {
  import opened Utf8Conv
  import Codecvt32
  import Codecvt16

  // ---------------------------------------------------------------------
  // utf8_chars_needed

  /** utf8_chars_needed: the length of the UTF-8 form of v, from one to
      six bytes, or -1 at and above 0x80000000, which no form covers. */
  function CharsNeeded(v: nat): (r: int)
    ensures r == -1 <==> v >= 0x8000_0000
    ensures r != -1 ==> 1 <= r <= 6
  {
    if v < 0x80 then 1
    else if v < 0x800 then 2
    else if v < 0x1_0000 then 3
    else if v < 0x20_0000 then 4
    else if v < 0x400_0000 then 5
    else if v < 0x8000_0000 then 6
    else -1
  }

  /** The table never shrinks as the value grows. */
  lemma CharsNeededMonotone(a: nat, b: nat)
    requires a <= b < 0x8000_0000
    ensures 1 <= CharsNeeded(a) <= CharsNeeded(b) <= 6
  {
  }

  /** The test's table is the encoder's: utf8_chars_needed agrees with
      bytes_needed everywhere, and with the length of the form produced. */
  lemma CharsNeededIsBytesNeeded(c: u32)
    ensures CharsNeeded(c) == BytesNeeded(c)
    ensures c < 0x8000_0000 ==> CharsNeeded(c) == |Encode(c)|
  {
    BytesNeededBands(c);
  }

  // ---------------------------------------------------------------------
  // max_length

  /** max_length: without consume_header the facet's max_length() is
      utf8_chars_needed(max_value); the UTF-16 facet's 4 is the length for
      0x10FFFF, the largest value UTF-16 carries. */
  lemma MaxLengthOracle(maxcode: u32)
    requires maxcode < 0x8000_0000
    ensures Codecvt32.DoMaxLength(maxcode) == CharsNeeded(maxcode)
    ensures Codecvt16.DoMaxLength() == CharsNeeded(0x10_FFFF)
  {
    CharsNeededIsBytesNeeded(maxcode);
  }

  // ---------------------------------------------------------------------
  // Decoding a stream

  /** A decoder completes at most one code point per byte. */
  lemma {:induction false} DecodeCount(st: St, bs: seq<byte>)
    ensures |Decode8(st, bs).cps| <= |bs|
    decreases |bs|
  {
    if bs != [] {
      DecodeCount(st, bs[..|bs| - 1]);
    }
  }

  /** Every prefix of an accepted stream is accepted. */
  lemma PrefixAccepted(st: St, bs: seq<byte>, n: nat)
    requires n <= |bs| && Decode8(st, bs).ok
    ensures Decode8(st, bs[..n]).ok
  {
    assert bs == bs[..n] + bs[n..];
    FeedAll8Append(Feed(true, st, []), bs[..n], bs[n..]);
    FeedAll8Grows(Decode8(st, bs[..n]), bs[n..]);
  }

  // ---------------------------------------------------------------------
  // out_for_ictype and in_for_ictype

  /** out_for_ictype: encode the single character c from a zeroed state
      into `buffer`, and report the result and the end of what was
      written. The oracle: the result is ok exactly when c is within the
      ceiling, and then the bytes written are the UTF-8 form of c,
      utf8_chars_needed(c) of them. Otherwise nothing is written. */
  method OutForIctype(c: u32, maxcode: u32, buffer: array<byte>) returns (rc: Result, bufferEnd: nat)
    requires maxcode < 0x8000_0000 && 6 <= buffer.Length
    modifies buffer
    ensures bufferEnd <= buffer.Length
    ensures rc == Ok <==> c <= maxcode
    ensures rc == Ok ==> bufferEnd == CharsNeeded(c) && buffer[..bufferEnd] == Encode(c)
    ensures rc != Ok ==> rc == Error && bufferEnd == 0
  {
    var state := new MbState();
    var intern := new u32[1];
    intern[0] := c;
    assert intern[..1] == [c] && intern[..0] == [];
    var fromNext;
    rc, fromNext, bufferEnd := Codecvt32.DoOut(state, maxcode, intern, buffer);
    assert Pending(St(0, 0)) == [];
    if fromNext == 1 && c < 0x8000_0000 {
      assert EncodeAll([c]) == EncodeAll([]) + Encode(c) == Encode(c);
    }
    CharsNeededIsBytesNeeded(c);
    if rc == Partial {
      assert false;
    }
    if rc == Ok {
      assert fromNext == 1 && Encodable(intern[..fromNext][0], maxcode);
      assert state.count == 0 && Pending(state.Get()) == [];
      assert buffer[..bufferEnd] + [] == buffer[..bufferEnd];
    }
  }

  /** in_for_ictype: decode buffer[..end] from a zeroed state into a
      ten-unit conversion buffer. The test discards the units and reports
      only the result and where decoding stopped; here the units are also
      returned. When the bytes are the UTF-8 form of one code point c, the
      call consumes all of them, returns ok and yields c. */
  method InForIctype(buffer: array<byte>, end: nat, ghost c: u32)
    returns (rc: Result, end': nat, units: seq<u32>)
    requires end <= buffer.Length
    ensures end' <= end
    ensures var d := Decode8(St(0, 0), buffer[..end']); d.ok && d.cps == units
    ensures c < 0x8000_0000 && buffer[..end] == Encode(c) ==> rc == Ok && end' == end && units == [c]
  {
    var src := new byte[end];
    forall i | 0 <= i < end {
      src[i] := buffer[i];
    }
    assert src[..] == buffer[..end];
    var state := new MbState();
    var conv := new u32[10];
    var toNext;
    rc, end', toNext := Codecvt32.DoIn(state, src, conv);
    units := conv[..toNext];
    assert src[..end'] == buffer[..end'];
    if c < 0x8000_0000 && buffer[..end] == Encode(c) {
      EncodeAllRoundTrip([c], 0);
      assert EncodeAll([c]) == EncodeAll([]) + Encode(c);
      assert src[..] == EncodeAll([c]);
      CharsNeededIsBytesNeeded(c);
      if rc == Error {
        PrefixAccepted(St(0, 0), src[..], end' + 1);
        DecodeSnoc(St(0, 0), src[..], end');
        assert false;
      }
      if end' < end {
        DecodeCount(St(0, 0), src[..end']);
        assert false;
      }
      assert src[..end'] == src[..];
    }
  }

  // ---------------------------------------------------------------------
  // encode_decode_char_range

  function Min(a: nat, b: nat): (r: nat)
  {
    if a < b then a else b
  }

  /** The first loop: every value from 0 to min(0xD7FF, max_value) is
      encoded and the bytes decoded again. Every encoding is ok, so the
      loop's assertion holds for every ceiling. */
  method LowRange(maxcode: u32, outbuffer: array<byte>) returns (passed: bool)
    requires maxcode < 0x8000_0000 && outbuffer.Length == 10
    modifies outbuffer
    ensures passed
  {
    passed := true;
    for cval := 0 to Min(0xD7FF, maxcode) + 1
      invariant passed
    {
      var rc, end := OutForIctype(cval, maxcode, outbuffer);
      passed := passed && rc == Ok;
      var _, _, _ := InForIctype(outbuffer, end, cval);
    }
  }

  /** Whether every value the second loop samples is within the ceiling:
      it samples N, N + 1 and N + 0xFF for N from 0xE000 in steps of 0x100
      up to min(0x10FFFF, max_value), so the last block must end at or
      below the ceiling. */
  predicate SampledWithin(maxcode: nat)
  {
    maxcode < 0xE000 || maxcode >= 0x10_FFFF || maxcode % 0x100 == 0xFF
  }

  /** The second loop: its assertions hold exactly when SampledWithin. */
  method SampledRange(maxcode: u32, outbuffer: array<byte>) returns (passed: bool)
    requires maxcode < 0x8000_0000 && outbuffer.Length == 10
    modifies outbuffer
    ensures passed <==> SampledWithin(maxcode)
  {
    passed := true;
    var cval: nat := 0xE000;
    while cval <= Min(0x10_FFFF, maxcode)
      invariant 0xE000 <= cval && cval % 0x100 == 0
      invariant cval == 0xE000 || cval <= Min(0x10_FFFF, maxcode) + 0x100
      invariant passed <==> cval == 0xE000 || cval - 1 <= maxcode
      decreases 0x11_0000 - cval
    {
      var at := Sample(cval, maxcode, outbuffer);
      var above := Sample(cval + 1, maxcode, outbuffer);
      var top := Sample(cval + 0x100 - 1, maxcode, outbuffer);
      passed := passed && at && above && top;
      cval := cval + 0x100;
    }
    if 0xE000 < cval && maxcode < 0x10_FFFF {
      var low := cval - 0x100;
      assert low <= maxcode < cval && low % 0x100 == 0;
      assert maxcode % 0x100 == maxcode - low;
    }
  }

  /** Whether every value the third loop samples is within the ceiling:
      it samples N - 1, N and N + 1 for N from 0x110000 in steps of
      0x10000 up to max_value, so N + 1 overshoots only when some N is the
      ceiling itself. */
  predicate HighWithin(maxcode: nat)
  {
    maxcode < 0x11_0000 || (maxcode - 0x11_0000) % 0x1_0000 != 0
  }

  /** Whether the third loop, with N now at cval, has sampled N + 1 above
      the ceiling: some earlier N was the ceiling itself. */
  predicate HighOvershot(maxcode: nat, cval: nat)
  {
    0x11_0000 <= maxcode < cval && (maxcode - 0x11_0000) % 0x1_0000 == 0
  }

  /** Within one step of the third loop the only sample that can go
      above the ceiling is N + 1, when N is the ceiling itself. */
  lemma HighStep(maxcode: nat, cval: nat, k: nat)
    requires cval == 0x11_0000 + 0x1_0000 * k && cval <= maxcode
    ensures HighOvershot(maxcode, cval + 0x1_0000) <==> HighOvershot(maxcode, cval) || maxcode == cval
  {
    if maxcode < cval + 0x1_0000 {
      var d := maxcode - cval;
      assert maxcode - 0x11_0000 == 0x1_0000 * k + d;
      assert (maxcode - 0x11_0000) % 0x1_0000 == d;
    }
  }

  /** One sample of the second and third loops: out_for_ictype on c and
      the assertion that it returned ok. */
  method Sample(c: u32, maxcode: u32, outbuffer: array<byte>) returns (ok: bool)
    requires maxcode < 0x8000_0000 && outbuffer.Length == 10
    modifies outbuffer
    ensures ok <==> c <= maxcode
  {
    var rc, _ := OutForIctype(c, maxcode, outbuffer);
    ok := rc == Ok;
  }

  /** The third loop: its assertions hold exactly when HighWithin. */
  method HighRange(maxcode: u32, outbuffer: array<byte>) returns (passed: bool)
    requires maxcode < 0x8000_0000 && outbuffer.Length == 10
    modifies outbuffer
    ensures passed <==> HighWithin(maxcode)
  {
    passed := true;
    var cval: nat := 0x11_0000;
    ghost var k: nat := 0;
    while cval <= maxcode
      invariant cval == 0x11_0000 + 0x1_0000 * k
      invariant cval == 0x11_0000 || cval <= maxcode + 0x1_0000
      invariant passed <==> !HighOvershot(maxcode, cval)
      decreases maxcode - cval
    {
      var below := Sample(cval - 1, maxcode, outbuffer);
      var at := Sample(cval, maxcode, outbuffer);
      var above := Sample(cval + 1, maxcode, outbuffer);
      passed := passed && below && at && above;
      HighStep(maxcode, cval, k);
      cval, k := cval + 0x1_0000, k + 1;
    }
  }

  /** encode_decode_char_range: the three loops over one ten-byte output
      buffer. The test passes exactly when every sampled value is within
      the ceiling. */
  method EncodeDecodeCharRange(maxcode: u32) returns (passed: bool)
    requires maxcode < 0x8000_0000
    ensures passed <==> SampledWithin(maxcode) && HighWithin(maxcode)
  {
    var outbuffer := new byte[10];
    var low := LowRange(maxcode, outbuffer);
    var sampled := SampledRange(maxcode, outbuffer);
    var high := HighRange(maxcode, outbuffer);
    passed := low && sampled && high;
  }

  /** Every ceiling the test file names passes, the two registered ones
      (0x7F and 0xFF) and those in its disabled registrations. */
  lemma NamedCeilingsPass(maxcode: nat)
    requires maxcode in {0x7F, 0xFF, 0xFFFF, 0x10_FFFF, 0x3FF_FFFF, 0x7FFF_FFFF}
    ensures SampledWithin(maxcode) && HighWithin(maxcode)
  {
  }
}
