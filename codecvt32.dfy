/** codecvt<char32_t, char, mbstate_t>: UTF-32 code units <-> UTF-8 bytes.
    Each source code point maps through extract_leader_byte / next_byte
    to one to six bytes, and each completed byte sequence maps to one code
    point. The ceiling of max_encodable_value() is the parameter
    `maxcode`. Source and destination ranges are whole arrays; the cursors
    from_next and to_next are returned as indices. */
module Codecvt32 {
  import opened Utf8Conv

  /** do_max_length: bytes_needed(max_encodable_value()), the length of
      the longest form the facet can produce. */
  function DoMaxLength(maxcode: u32): (r: int)
    requires maxcode < 0x8000_0000
    ensures 1 <= r <= 6 && r == |Encode(maxcode)|
  {
    BytesNeededBands(maxcode);
    BytesNeeded(maxcode)
  }

  /** No code point the facet accepts needs more than do_max_length bytes. */
  lemma MaxLengthCovers(maxcode: u32, c: u32)
    requires maxcode < 0x8000_0000 && c <= maxcode
    ensures |Encode(c)| <= DoMaxLength(maxcode)
  {
    BytesNeededMonotone(c, maxcode);
  }

  /** do_unshift: flush the continuation bytes still owed. Returns ok iff
      nothing is owed any more; with nothing owed it writes nothing. */
  method DoUnshift(s: MbState, maxcode: u32, dst: array<byte>, toBegin: nat) returns (res: Result, toNext: nat)
    requires maxcode < 0x8000_0000 && toBegin <= dst.Length
    requires 0 <= s.count < DoMaxLength(maxcode)
    modifies s, dst
    ensures toBegin <= toNext <= dst.Length
    ensures dst[..toNext] + Pending(s.Get()) == old(dst[..toBegin]) + Pending(old(s.Get()))
    ensures s.value == old(s.value) && 0 <= s.count <= old(s.count)
    ensures toNext - toBegin == old(s.count) - s.count
    ensures res == Ok <==> s.count == 0
    ensures res != Ok ==> res == Partial && toNext == dst.Length
    ensures forall i :: 0 <= i < toBegin ==> dst[i] == old(dst[i])
    ensures forall i :: toNext <= i < dst.Length ==> dst[i] == old(dst[i])
  {
    toNext := DrainPending(s, dst, toBegin);
    res := if s.count == 0 then Ok else Partial;
  }

  /** The leader half of one do_out iteration on an idle state: load the
      next code point into `value` and write its leader byte, or stop
      with error when it is above the ceiling. */
  method PutLeader(s: MbState, maxcode: u32, src: array<u32>, dst: array<byte>,
                   fromNext: nat, toNext: nat, ghost owed: seq<byte>)
    returns (err: bool, from': nat, to': nat)
    requires maxcode < 0x8000_0000
    requires fromNext < src.Length && toNext < dst.Length && s.count == 0
    requires AllEncodable(src[..fromNext], maxcode)
    requires dst[..toNext] == owed + EncodeAll(src[..fromNext])
    modifies s, dst
    ensures forall i :: 0 <= i < dst.Length && i != toNext ==> dst[i] == old(dst[i])
    ensures err ==>
      from' == fromNext && to' == toNext && dst[toNext] == old(dst[toNext])
      && s.count < 0 && s.value == src[fromNext] && !Encodable(src[fromNext], maxcode)
    ensures !err ==>
      from' == fromNext + 1 && to' == toNext + 1
      && 0 <= s.count < DoMaxLength(maxcode)
      && AllEncodable(src[..from'], maxcode)
      && dst[..to'] + Pending(s.Get()) == owed + EncodeAll(src[..from'])
  {
    var c := src[fromNext];
    s.value := c;
    var lead := ExtractLeaderByte(s, maxcode);
    if s.count < 0 {
      return true, fromNext, toNext;
    }
    BytesNeededMonotone(c, maxcode);
    ghost var pre := dst[..toNext];
    assert src[..fromNext + 1] == src[..fromNext] + [c];
    LeadStep(pre, owed, src[..fromNext], c, maxcode);
    dst[toNext] := lead;
    assert dst[..toNext + 1] == pre + [lead];
    return false, fromNext + 1, toNext + 1;
  }

  /** do_out: encode src into dst. Pending continuation bytes are drained
      before the next code point is taken; a code point above the ceiling
      stops the call with error, neither cursor advanced past it. The bytes
      written, followed by those still owed, are those owed on entry
      followed by the UTF-8 forms of the code points consumed. */
  method DoOut(s: MbState, maxcode: u32, src: array<u32>, dst: array<byte>)
    returns (res: Result, fromNext: nat, toNext: nat)
    requires maxcode < 0x8000_0000
    requires 0 <= s.count < DoMaxLength(maxcode)
    modifies s, dst
    ensures fromNext <= src.Length && toNext <= dst.Length
    ensures forall i :: toNext <= i < dst.Length ==> dst[i] == old(dst[i])
    ensures AllEncodable(src[..fromNext], maxcode)
    ensures res != Error ==>
      dst[..toNext] + Pending(s.Get()) == Pending(old(s.Get())) + EncodeAll(src[..fromNext])
      && 0 <= s.count < DoMaxLength(maxcode)
    ensures res == Ok <==> res != Error && s.count == 0 && fromNext == src.Length
    ensures res == Partial ==> toNext == dst.Length
    ensures res == Error ==>
      fromNext < src.Length && !Encodable(src[fromNext], maxcode)
      && dst[..toNext] == Pending(old(s.Get())) + EncodeAll(src[..fromNext])
      && s.count < 0 && s.value == src[fromNext]
  {
    fromNext, toNext := 0, 0;
    ghost var owed := Pending(s.Get());
    assert src[..0] == [] && dst[..0] == [];
    while toNext < dst.Length && fromNext < src.Length
      invariant fromNext <= src.Length && toNext <= dst.Length
      invariant 0 <= s.count < DoMaxLength(maxcode)
      invariant AllEncodable(src[..fromNext], maxcode)
      invariant dst[..toNext] + Pending(s.Get()) == owed + EncodeAll(src[..fromNext])
      invariant forall i :: toNext <= i < dst.Length ==> dst[i] == old(dst[i])
      decreases src.Length - fromNext + dst.Length - toNext
    {
      if s.count == 0 {
        assert dst[..toNext] + Pending(s.Get()) == dst[..toNext];
        var err;
        err, fromNext, toNext := PutLeader(s, maxcode, src, dst, fromNext, toNext, owed);
        if err {
          res := Error;
          return;
        }
      }
      var _, to := DoUnshift(s, maxcode, dst, toNext);
      toNext := to;
    }
    var _, to := DoUnshift(s, maxcode, dst, toNext);
    toNext := to;
    res := if s.count == 0 && fromNext == src.Length then Ok else Partial;
  }

  /** do_in: decode the bytes of src into code points. The bytes consumed
      decode, from the entry state, to the code points written, and the
      state afterwards is the decoder's; an offending byte stops the call
      with error and is not consumed. Ok means every byte was consumed and
      no code point is left half-read. */
  method DoIn(s: MbState, src: array<byte>, dst: array<u32>)
    returns (res: Result, fromNext: nat, toNext: nat)
    modifies s, dst
    ensures fromNext <= src.Length && toNext <= dst.Length
    ensures forall i :: toNext <= i < dst.Length ==> dst[i] == old(dst[i])
    ensures var d := Decode8(old(s.Get()), src[..fromNext]);
      d.ok && d.st == s.Get() && d.cps == dst[..toNext]
    ensures res == Error ==> fromNext < src.Length && !Update8(s.Get(), src[fromNext]).ok
    ensures res != Error ==> fromNext == src.Length || toNext == dst.Length
    ensures res == Ok <==> res != Error && s.count == 0 && fromNext == src.Length
  {
    fromNext, toNext := 0, 0;
    ghost var st0 := s.Get();
    assert src[..0] == [] && dst[..0] == [];
    while fromNext < src.Length && toNext < dst.Length
      invariant fromNext <= src.Length && toNext <= dst.Length
      invariant var d := Decode8(st0, src[..fromNext]);
        d.ok && d.st == s.Get() && d.cps == dst[..toNext]
      invariant forall i :: toNext <= i < dst.Length ==> dst[i] == old(dst[i])
    {
      DecodeSnoc(st0, src[..], fromNext);
      assert src[..][..fromNext + 1] == src[..fromNext + 1] && src[..][..fromNext] == src[..fromNext];
      var ok := UpdateMbstate(s, src[fromNext]);
      if !ok {
        res := Error;
        return;
      }
      if s.count == 0 {
        dst[toNext] := s.value;
        assert dst[..toNext + 1] == dst[..toNext] + [s.value];
        toNext := toNext + 1;
      }
      fromNext := fromNext + 1;
    }
    res := if s.count != 0 || fromNext < src.Length then Partial else Ok;
  }

  /** do_length: the number of bytes of src that decode to at most `max`
      code points, stopping at the first rejected byte. The state is left
      as the decoder's after those bytes. */
  method DoLength(s: MbState, src: array<byte>, max: nat) returns (n: nat)
    modifies s
    ensures n <= src.Length
    ensures var d := Decode8(old(s.Get()), src[..n]);
      d.ok && d.st == s.Get() && |d.cps| <= max
      && (n < src.Length ==> |d.cps| == max || !Update8(s.Get(), src[n]).ok)
      && (n > 0 && |d.cps| == max ==> s.count == 0)
  {
    n := 0;
    var count := 0;
    ghost var st0 := s.Get();
    assert src[..0] == [];
    while n < src.Length && count < max
      invariant n <= src.Length && count <= max
      invariant var d := Decode8(st0, src[..n]);
        d.ok && d.st == s.Get() && |d.cps| == count
      invariant n > 0 && count == max ==> s.count == 0
    {
      DecodeSnoc(st0, src[..], n);
      assert src[..][..n + 1] == src[..n + 1] && src[..][..n] == src[..n];
      var ok := UpdateMbstate(s, src[n]);
      if !ok {
        break;
      }
      if s.count == 0 {
        count := count + 1;
      }
      n := n + 1;
    }
  }
}
