# UTF-8 codecvt facets and the path iterator of xos

This project models three parts of the xos C++ runtime in Dafny.

1. **The two UTF-8 `codecvt` facets** in `src/codecvt/codecvt.h`:
   - `codecvt<char16_t, char, mbstate_t>` converts UTF-16 to and from UTF-8;
   - `codecvt<char32_t, char, mbstate_t>` converts UTF-32 to and from UTF-8, up to the six-byte forms of section 2 of RFC 2279.

   The conversion state is the caller's `mbstate_t`. It is modelled as a class `MbState` with the two fields the code uses: `count` (`__count`) and `value` (`__value.__wch`). Its operations update it in place.
   - `do_out`, `do_in`, `do_unshift` and `do_length` are methods with loops over whole arrays. The cursors `from_next` and `to_next` are returned as indices.
   - Each method is proved against pure specification functions:
     - a UTF-8 encoder `Encode`/`EncodeAll`;
     - a byte-at-a-time decoder `Decode8`, built from the step `Update8` (`update_mbstate(char)`);
     - the UTF-16 step `Update16` (`update_mbstate(char16_t)`);
     - the surrogate split `LeaderValue` (`extract_leader_value`).
   - The round trips are proved as lemmas: code points to UTF-8 to code points; scalar values to UTF-16 to scalar values; and well-formed UTF-16 (every surrogate paired) to code points and back to the same units.
   - The helpers of `utf8_conversion` are `bytes_needed`, `extract_leader_byte`, `next_byte` and `update_mbstate(char)`. Their header `utf8conv.h` is not part of this model, so module `Utf8Conv` defines them from the byte layout of section 3 of RFC 3629, extended with the five- and six-byte forms. The modelled behaviour is how `codecvt.h` calls them.

2. **The oracles of the unit test** `src/unit/unit_codecvt_utf8.cc`. Module `CodecvtUnit` holds them:
   - the test's own length table `utf8_chars_needed`;
   - `out_for_ictype` and `in_for_ictype`;
   - the three sampling loops of `encode_decode_char_range`;
   - the `max_length` check.

   Each is stated as what it guarantees about the UTF-32 facet.

3. **`filesystem::path_iterator`** in `src/filesystem/path_iterator.h`. Module `PathIter` holds it:
   - `build_elements` splits a path's generic string into (first, second) offset pairs. It is a method with the source's do-while loop, proved equal to a recursive function `Elements`.
   - Lemmas state what the list holds:
     - the leading separator comes first;
     - one element per run of non-separators, each read back as that run, in the order of the string, with every non-separator character inside some element;
     - a trailing separator gives a closing `(npos, npos)` element that reads as ".";
     - no list is longer than the string plus one.
   - The iterator is a class with the source's four fields. Its constructors, assignment, `==`, `++`/`--` (on a 64-bit `size_t` that wraps) and `*` are modelled, where `*` goes through `create_element_value`.

## Model

| member | source | states |
|---|---|---|
| Utf8Conv.MbState.constructor | src/unit/unit_codecvt_utf8.cc:169 | a value-initialised `mbstate_t` is idle: count 0, value 0 |
| Utf8Conv.BytesNeeded | src/codecvt/codecvt.h:480-485 | `bytes_needed` is -1 or a length from 1 to 6 |
| Utf8Conv.BytesNeededBands | src/unit/unit_codecvt_utf8.cc:7-23 | the length bands: 1 below 0x80, 2 below 0x800, 3 below 0x10000, 4 below 0x200000, 5 below 0x4000000, 6 below 0x80000000, -1 above |
| Utf8Conv.BytesNeededMonotone | src/codecvt/codecvt.h:480-485 | a larger code point never needs a shorter form, so `bytes_needed(max_encodable_value())` bounds every accepted code point |
| Utf8Conv.LeaderByteOf | src/codecvt/codecvt.h:374-375 | the leader byte is the code point itself below 0x80, otherwise a byte in 0xC0..0xFD |
| Utf8Conv.ExtractLeader | src/codecvt/codecvt.h:374-378 | `extract_leader_byte`: within the ceiling, count becomes `bytes_needed(c) - 1`; above the ceiling, count goes negative; value is kept |
| Utf8Conv.NextByte | src/codecvt/codecvt.h:407-412 | `next_byte` yields a continuation byte (0x80..0xBF) |
| Utf8Conv.Pending | src/codecvt/codecvt.h:407-412 | the bytes a state still owes: count of them while count is positive, none otherwise |
| Utf8Conv.PendingContinuation | src/codecvt/codecvt.h:407-412 | every owed byte is a continuation byte |
| Utf8Conv.PendingDrop | src/codecvt/codecvt.h:407-412 | after k decrements of count the state owes the same bytes less the first k; the k-th is `next_byte` at count - k |
| Utf8Conv.Encode | src/codecvt/codecvt.h:372-385 | the UTF-8 form of c (leader, then owed bytes) has exactly `bytes_needed(c)` bytes |
| Utf8Conv.LeadLength | src/codecvt/codecvt.h:434-435 | a leader byte announces a form of 2 to 6 bytes |
| Utf8Conv.Update8 | src/codecvt/codecvt.h:434-441 | `update_mbstate(char)`: a rejected byte leaves the state as it was; a code point completes only from count 0 or 1 |
| Utf8Conv.FeedAll8Append | src/codecvt/codecvt.h:430-442 | decoding a + b is decoding b after a |
| Utf8Conv.FeedAll8Grows | src/codecvt/codecvt.h:434-435 | a rejection is final, and more bytes only append code points |
| Utf8Conv.DecodeSnoc | src/codecvt/codecvt.h:430-442 | one byte more extends the decoding by one step |
| Utf8Conv.DigitStep | src/codecvt/codecvt.h:407-412 | folding the next continuation digit restores the next-lower shift of c |
| Utf8Conv.FeedPending | src/codecvt/codecvt.h:430-442 | feeding the owed bytes of c to a decoder holding its leading digits completes c |
| Utf8Conv.LeaderRestarts | src/codecvt/codecvt.h:434-441 | the leader byte of c seeds an idle decoder with c's leading digits and the right count |
| Utf8Conv.EncodeRoundTrip | src/codecvt/codecvt.h:353-447 | decoding the UTF-8 form of c from an idle state yields exactly c and leaves the state idle |
| Utf8Conv.EncodeAllSnoc | src/codecvt/codecvt.h:370-386 | the encoding of a sequence splits at its last code point |
| Utf8Conv.EncodeAllRoundTrip | src/codecvt/codecvt.h:353-447 | decode(encode(cs)) == cs for every sequence of encodable code points |
| Utf8Conv.LeadStep | src/codecvt/codecvt.h:374-383 | writing c's leader and owing its continuation bytes extends the encoded prefix by c |
| Utf8Conv.ExtractLeaderByte | src/codecvt/codecvt.h:375 | the in-place `extract_leader_byte` returns the byte and leaves the state `ExtractLeader` gives |
| Utf8Conv.UpdateMbstate | src/codecvt/codecvt.h:434 | the in-place `update_mbstate(char)` follows `Update8` |
| Utf8Conv.DrainPending | src/codecvt/codecvt.h:405-414 | the unshift loop: what is written, followed by what is still owed, equals what was owed on entry; it stops only when nothing is owed or the buffer is full; nothing outside the written cells changes |
| Codecvt32.DoMaxLength | src/codecvt/codecvt.h:480-485 | `do_max_length` is 1..6 and the length of the form of the ceiling |
| Codecvt32.MaxLengthCovers | src/codecvt/codecvt.h:480-485 | no code point the facet accepts needs more than `do_max_length` bytes |
| Codecvt32.DoUnshift | src/codecvt/codecvt.h:395-415 | flushes owed bytes in order; ok exactly when nothing is left owed, partial with the buffer full otherwise |
| Codecvt32.PutLeader | src/codecvt/codecvt.h:372-383 | an idle iteration loads the next code point and writes its leader, or stops with error on a code point above the ceiling, with no cursor advanced |
| Codecvt32.DoOut | src/codecvt/codecvt.h:353-393 | bytes written plus bytes owed equal the bytes owed on entry plus `EncodeAll` of the code points consumed; ok exactly when all are consumed and nothing is owed; partial only with the buffer full; error exactly at a code point above the ceiling, which is not consumed |
| Codecvt32.DoIn | src/codecvt/codecvt.h:417-447 | the bytes consumed decode from the entry state to the code points written, and the state is the decoder's; error at a rejected byte, which is not consumed; ok exactly when every byte is consumed and no sequence is left open |
| Codecvt32.DoLength | src/codecvt/codecvt.h:457-478 | the length returned decodes to at most `max` code points; it stops short only at `max` or at a rejected byte |
| Codecvt16.OrLow10 | src/codecvt/codecvt.h:33 | or-ing ten low bits into a value whose low ten bits are zero adds them |
| Codecvt16.Update16 | src/codecvt/codecvt.h:12-43 | `update_mbstate(char16_t)`: a rejected unit leaves the state; a count other than 0 and -1 is accepted unchanged |
| Codecvt16.IdleUnit | src/codecvt/codecvt.h:15-28 | from idle: a non-surrogate completes itself, a high surrogate awaits with its ten bits in place, a low surrogate is rejected (each an iff) |
| Codecvt16.AwaitingUnit | src/codecvt/codecvt.h:29-39 | while awaiting, exactly the low surrogates are accepted, and one completes 0x10000 plus both halves |
| Codecvt16.LowSurrogateJoins | src/codecvt/codecvt.h:33-34 | the or and the add of a completed pair neither overlap nor wrap |
| Codecvt16.LowTenBits | src/codecvt/codecvt.h:33 | the payload of a low surrogate is its offset into the block |
| Codecvt16.PairDecode | src/codecvt/codecvt.h:12-43 | a high/low pair decodes to 0x10000 + (hi - 0xD800) * 2^10 + (lo - 0xDC00), a supplementary code point (section 2.2 of RFC 2781) |
| Codecvt16.LeaderValue | src/codecvt/codecvt.h:46-66 | `extract_leader_value`: below 0x10000 the value itself, state untouched; otherwise a high surrogate, with a low surrogate queued at count -1 |
| Codecvt16.UnitsOf | src/codecvt/codecvt.h:46-66 | the UTF-16 form has one unit below 0x10000 and two above |
| Codecvt16.Queued | src/codecvt/codecvt.h:210-215 | a state owes at most one queued unit |
| Codecvt16.LeaderThenQueued | src/codecvt/codecvt.h:46-66 | the returned unit followed by the queued one is the UTF-16 form of the value |
| Codecvt16.SurrogateRoundTrip | src/codecvt/codecvt.h:46-66 | for a supplementary code point c, the two units produced are the surrogates of section 2.1 of RFC 2781 and decode back to c |
| Codecvt16.LeaderValueAliases | src/codecvt/codecvt.h:55-58 | above 0x10FFFF the split loses bits: 0x110000 comes out as the pair of 0x10000 |
| Codecvt16.FeedAll16Append | src/codecvt/codecvt.h:143-146 | decoding a + b is decoding b after a |
| Codecvt16.UnitsOfRoundTrip | src/codecvt/codecvt.h:12-66 | decoding the UTF-16 form of a scalar value yields that value |
| Codecvt16.UnitsAllRoundTrip | src/codecvt/codecvt.h:12-66 | decode16(units(cs)) == cs for every sequence of scalar values |
| Codecvt16.AwaitedHigh | src/codecvt/codecvt.h:21-24 | a state awaiting a low surrogate holds exactly one high surrogate, which is recovered from its ten stored bits |
| Codecvt16.PairUnits | src/codecvt/codecvt.h:46-66 | the UTF-16 form of 0x10000 + h * 2^10 + m is the pair (0xD800 + h, 0xDC00 + m) |
| Codecvt16.AwaitedPair | src/codecvt/codecvt.h:29-39 | the code point an awaited pair completes re-encodes as the stored high surrogate followed by the low one |
| Codecvt16.UnitsBackIdle | src/codecvt/codecvt.h:15-28 | from idle, one unit keeps the decoded code points plus any awaited high surrogate equal to the units read |
| Codecvt16.UnitsBackAwaiting | src/codecvt/codecvt.h:29-39 | while awaiting, one accepted unit keeps that equality |
| Codecvt16.UnitsBackStep | src/codecvt/codecvt.h:12-43 | every accepted unit keeps the decoded code points, re-encoded, plus the awaited high surrogate equal to the units read |
| Codecvt16.UnitsBack | src/codecvt/codecvt.h:12-43 | for every unit sequence the decoder accepts, re-encoding what it decoded, plus the high surrogate it still awaits, gives back the units |
| Codecvt16.DecodeUnitsRoundTrip | src/codecvt/codecvt.h:12-66 | units(decode16(us)) == us for every unit sequence that decodes with no surrogate left open |
| Codecvt16.Feed16UnitScalar | src/codecvt/codecvt.h:12-43 | every code point the pairing completes is a Unicode scalar value, and the state stays well formed |
| Codecvt16.UpdateMbstate | src/codecvt/codecvt.h:143 | the in-place `update_mbstate(char16_t)` follows `Update16` |
| Codecvt16.ExtractLeaderValue | src/codecvt/codecvt.h:248 | the in-place `extract_leader_value` follows `LeaderValue` |
| Codecvt16.MaxLengthCovers | src/codecvt/codecvt.h:307-324 | every code point UTF-16 carries fits in `do_max_length`'s 4 bytes, and 0x10FFFF needs all 4 |
| Codecvt16.DoUnshift | src/codecvt/codecvt.h:168-188 | flushes owed bytes in order; ok exactly when nothing is owed, partial with the buffer full otherwise |
| Codecvt16.Decode16Snoc | src/codecvt/codecvt.h:143-146 | one unit more extends the decoding by one step |
| Codecvt16.TakeUnit | src/codecvt/codecvt.h:143-146 | a rejected unit is not consumed; an accepted one extends the decoding by at most one scalar value, held in the state |
| Codecvt16.PutLeader | src/codecvt/codecvt.h:148-157 | a completed code point gets its leader byte written; one above the ceiling still gets its zero byte written and leaves count negative |
| Codecvt16.EmitCodePoint | src/codecvt/codecvt.h:148-162 | leader then as many owed bytes as fit; error only for a code point above the ceiling |
| Codecvt16.OutIteration | src/codecvt/codecvt.h:110-163 | each iteration either makes progress with written + owed equal to the encoding of the units consumed, or stops with error at a rejected unit or code point |
| Codecvt16.DoOut | src/codecvt/codecvt.h:95-166 | (corrected; see Findings) bytes written plus bytes owed are the bytes owed on entry followed by the UTF-8 of the code points the consumed units decode to; error exactly at a rejected unit (not consumed) or at a code point above the ceiling (zero byte written); partial only with the buffer full |
| Codecvt16.Update8Resumes | src/codecvt/codecvt.h:217 | `update_mbstate(char)` reads `value` only while a sequence is open |
| Codecvt16.UnitsAllSnoc | src/codecvt/codecvt.h:248-251 | the units of a sequence split at its last code point |
| Codecvt16.TakeByte | src/codecvt/codecvt.h:217-224 | a rejected byte is not consumed; an accepted one extends the decoding by at most one code point |
| Codecvt16.FlushQueued | src/codecvt/codecvt.h:210-215 | the queued low surrogate is written and the state goes idle |
| Codecvt16.PutUnit | src/codecvt/codecvt.h:226-251 | the units written plus the one queued spell the UTF-16 form of the completed code point |
| Codecvt16.DoIn | src/codecvt/codecvt.h:190-262 | (corrected; see Findings) units written plus the one still queued are the unit queued on entry followed by the UTF-16 form of the code points the consumed bytes decode to; it never writes past the buffer; error at a rejected byte, not consumed; never partial |
| Codecvt16.CountStep | src/codecvt/codecvt.h:287-300 | one more code point adds 1 unit below 0x10000 and 2 above |
| Codecvt16.CountByte | src/codecvt/codecvt.h:283-302 | one byte of `do_length` keeps the count equal to the UTF-16 length of the code points decoded, and stops at a code point above 0x10FFFF |
| Codecvt16.DoLength | src/codecvt/codecvt.h:272-305 | the bytes counted decode to code points whose UTF-16 length is at most max + 1, and the last one began below max; it stops short only at max, at a rejected byte or at a code point above 0x10FFFF |
| Codecvt16.OutResumedAsWritten | src/codecvt/codecvt.h:143-162 | as written, an iteration entered with bytes owed consumes the unit and keeps only the owed bytes |
| Codecvt16.ResumedOutDropsUnit | src/codecvt/codecvt.h:15-40 | as written, the result of that iteration does not depend on the unit: the unit is lost |
| Codecvt16.InIterationAsWritten | src/codecvt/codecvt.h:208-251 | as written, an iteration writes the queued unit and then possibly a new one, up to two units |
| Codecvt16.InIterationOverruns | src/codecvt/codecvt.h:210-251 | as written, two units are written in one iteration exactly when a unit was queued and the byte completes a code point |
| CodecvtUnit.CharsNeeded | src/unit/unit_codecvt_utf8.cc:7-23 | -1 exactly at and above 0x80000000, otherwise 1..6 |
| CodecvtUnit.CharsNeededMonotone | src/unit/unit_codecvt_utf8.cc:7-23 | the table never decreases |
| CodecvtUnit.CharsNeededIsBytesNeeded | src/unit/unit_codecvt_utf8.cc:4-23 | the test's table equals `bytes_needed` and the length of the form the encoder produces |
| CodecvtUnit.MaxLengthOracle | src/unit/unit_codecvt_utf8.cc:61-73 | `max_length()` equals `utf8_chars_needed(max_value)` for the UTF-32 facet; the UTF-16 facet's 4 is the value for 0x10FFFF |
| CodecvtUnit.DecodeCount | src/codecvt/codecvt.h:430-442 | a decoder completes at most one code point per byte |
| CodecvtUnit.PrefixAccepted | src/codecvt/codecvt.h:430-442 | every prefix of an accepted byte stream is accepted |
| CodecvtUnit.OutForIctype | src/unit/unit_codecvt_utf8.cc:164-187 | ok exactly when c is within the ceiling, and then the bytes written are the UTF-8 form of c, `utf8_chars_needed(c)` of them; otherwise error with nothing written |
| CodecvtUnit.InForIctype | src/unit/unit_codecvt_utf8.cc:222-259 | the bytes consumed decode to the units returned; the UTF-8 form of one code point c is consumed whole, with ok, yielding c |
| CodecvtUnit.LowRange | src/unit/unit_codecvt_utf8.cc:89-102 | the first loop's assertion holds for every ceiling |
| CodecvtUnit.SampledRange | src/unit/unit_codecvt_utf8.cc:104-123 | the second loop passes exactly when the ceiling is below 0xE000, at least 0x10FFFF, or ends a 0x100 block |
| CodecvtUnit.HighStep | src/unit/unit_codecvt_utf8.cc:125-141 | in a step of the third loop only N + 1 can exceed the ceiling, when N is the ceiling |
| CodecvtUnit.Sample | src/unit/unit_codecvt_utf8.cc:109-111 | one sample's assertion holds exactly when the value is within the ceiling |
| CodecvtUnit.HighRange | src/unit/unit_codecvt_utf8.cc:125-141 | the third loop passes exactly when no sampled N equals the ceiling |
| CodecvtUnit.EncodeDecodeCharRange | src/unit/unit_codecvt_utf8.cc:75-142 | the test passes exactly when both sampling conditions hold |
| CodecvtUnit.NamedCeilingsPass | src/unit/unit_codecvt_utf8.cc:279-294 | every ceiling the file names passes `encode_decode_char_range` |
| PathIter.FindFirstNotOf | src/filesystem/path_iterator.h:51 | the first index at or after pos that is not the separator, or npos when there is none |
| PathIter.FindFirstOf | src/filesystem/path_iterator.h:52 | the first separator at or after pos, or npos; npos when pos is npos |
| PathIter.BuildElements | src/filesystem/path_iterator.h:34-90 | the do-while loop computes `Elements` |
| PathIter.RoundRun | src/filesystem/path_iterator.h:51-52 | one round takes a whole run of non-separators that follows a separator or the start |
| PathIter.SplitShape | src/filesystem/path_iterator.h:49-59 | every element the rounds push is a whole run, or (npos, npos) in last place; at most one more than the characters left |
| PathIter.OrderedCons | src/filesystem/path_iterator.h:49-59 | an element ending at or before where the later ones start keeps the list in order |
| PathIter.CoveredCons | src/filesystem/path_iterator.h:49-59 | an element covering every non-separator before where the later ones take over keeps the list covering |
| PathIter.SplitOrder | src/filesystem/path_iterator.h:49-59 | the rounds push elements that start at or after the search position, each ending at or before the next one starts, and together covering every non-separator from there on |
| PathIter.ElementsOrder | src/filesystem/path_iterator.h:34-60 | the elements are in the order of the string and every non-separator character lies in one of them |
| PathIter.ElementsExamples | src/filesystem/path_iterator.h:34-60 | "a/b" splits into (0, 1), (2, npos); "/a/" with a root directory into (0, 1), (1, 2), (npos, npos) |
| PathIter.ElementsShape | src/filesystem/path_iterator.h:34-60 | the list is empty exactly for the empty path; a leading separator is element (0, 1); every element is the separator, a run of non-separators read whole, or a final (npos, npos); the elements are in order and cover every non-separator; at most length + 1 elements |
| PathIter.ElementAt | src/filesystem/path_iterator.h:34-60 | each element is of one of those kinds |
| PathIter.LeadValue | src/filesystem/path_iterator.h:43-47 | the leading separator element reads as the separator |
| PathIter.LaterElementAt | src/filesystem/path_iterator.h:49-59 | after a leading separator, each element is a run or the final (npos, npos) |
| PathIter.RunOk | src/filesystem/path_iterator.h:49-59 | each element the rounds push is a run read whole, or (npos, npos) in last place |
| PathIter.ComponentValue | src/filesystem/path_iterator.h:206-214 | a run reads back as its characters, non-empty and without a separator |
| PathIter.RootOnly | src/filesystem/path_iterator.h:40-59 | a path of separators only is the root element, plus "." when it has no root directory |
| PathIter.SplitTrailing | src/filesystem/path_iterator.h:49-59 | a string ending in a separator ends the rounds with (npos, npos) |
| PathIter.TrailingSeparator | src/filesystem/path_iterator.h:49-59 | a path with a trailing separator (beyond the root) ends with an element reading "." |
| PathIter.SplitToEnd | src/filesystem/path_iterator.h:49-59 | a string ending in a non-separator ends the rounds with a run reaching the end |
| PathIter.NoTrailingSeparator | src/filesystem/path_iterator.h:49-59 | otherwise the last element is the final run, read to the end of the string |
| PathIter.Substr | src/filesystem/path_iterator.h:210 | `substr(pos, n)` is the at most n characters from pos |
| PathIter.ElementValue | src/filesystem/path_iterator.h:198-219 | "." for npos; otherwise a slice from first, to second or to the end |
| PathIter.NextCursor | src/filesystem/path_iterator.h:161 | ++ stays within `size_t` |
| PathIter.PrevCursor | src/filesystem/path_iterator.h:174 | -- stays within `size_t` |
| PathIter.CursorInverse | src/filesystem/path_iterator.h:159-176 | ++ and -- undo each other on every cursor, including the wrap of -- at 0 |
| PathIter.PathIterator.constructor | src/filesystem/path_iterator.h:93-98 | no path, no elements, cursor 0 |
| PathIter.PathIterator.Over | src/filesystem/path_iterator.h:100-106 | the elements of the path, cursor at the first or one past the last |
| PathIter.PathIterator.Copy | src/filesystem/path_iterator.h:108-113 | every field copied |
| PathIter.PathIterator.Assign | src/filesystem/path_iterator.h:122-132 | every field taken from other; self-assignment changes nothing |
| PathIter.PathIterator.Equals | src/filesystem/path_iterator.h:148-152 | same path and same cursor; equal valid iterators hold the same elements |
| PathIter.PathIterator.NotEquals | src/filesystem/path_iterator.h:154-157 | the negation of == |
| PathIter.PathIterator.Increment | src/filesystem/path_iterator.h:159-163 | the cursor moves on by one, nothing else changes |
| PathIter.PathIterator.PostIncrement | src/filesystem/path_iterator.h:165-170 | returns a fresh copy of the old iterator, this one moved on |
| PathIter.PathIterator.Decrement | src/filesystem/path_iterator.h:172-176 | the cursor moves back by one, wrapping at 0; nothing else changes |
| PathIter.PathIterator.PostDecrement | src/filesystem/path_iterator.h:178-183 | returns a fresh copy of the old iterator, this one moved back |
| PathIter.PathIterator.Deref | src/filesystem/path_iterator.h:185-219 | out of range: the `at` exception (None), nothing changed; in range: `element_value` is the text of the element under the cursor, which is the separator, a run or "." |
| PathIter.BeginEqualsEnd | src/filesystem/path_iterator.h:148-152 | begin == end exactly when the path is empty |

## Left out

- Locale plumbing is not modelled: `locale::id`, the constructors, `do_encoding` and `do_always_noconv` (which return constants), and the `__codecvt_abstract_base` wrappers `out`/`in`/`unshift`/`length`.
- `utf8conv.h` is not part of this model.
  - `extract_leader_byte` is modelled as leaving `value` unrepacked, with `next_byte` reading the digits it needs from the whole value. The bytes produced are the same.
  - A rejected code point leaves count at -1 and a zero byte.
- `max_encodable_value()` is the parameter `maxcode`, shared by both facets: `Codecvt32.DoOut` rejects code points above it, and `Codecvt16.DoOut` writes a zero byte for them.
  - `codecvt_utf8<C, N, M>` and its header are not part of this model. The unit-test oracles are therefore stated against the UTF-32 facet, with `maxcode` set to the test's `max_value`.
  - The byte-order-mark modes (`generate_header`, `consume_header`) are not modelled.
- Pointer ranges are whole arrays: `from_begin`/`to_begin` are index 0 and the ends are the array lengths. Overlapping or aliased ranges are not modelled.
- The debug output is not modelled: the `printf` in `out_for_ictype`, and the `#if 0` and commented-out blocks of both files.
- Parts of the unit test with no effect on its verdict are not modelled:
  - the `cvt.length` call in `out_for_ictype` (its result is never checked);
  - the empty `unshift` test;
  - `unshift_errors`, whose assertion `rc = error` assigns and so always holds. Its state with count -1 breaks the `assert` at the top of `do_unshift`, which `DoUnshift` turns into a precondition.
- A failing `CPPUNIT_ASSERT` aborts the test in the source. The model evaluates every assertion and reports their conjunction. Likewise, `in_for_ictype` leaves its `x` at 0 and the model returns the decoded units instead.
- Codecvt32.DoLength and Codecvt16.DoLength return the `int` of the source as an unbounded `nat`. An array length beyond 2^31 - 1 is not modelled.
- The move constructor and move assignment are not modelled (path_iterator.h 115-120 and 134-144). They copy like `Copy` and `Assign`, and the state they leave the source iterator in is not modelled.
- `recursive_directory_iterator.cc` is not part of this model.
- The `path` class is modelled as its generic string, its separator and `has_root_directory()` (class `Path`). Its `empty()` is taken as an empty generic string.
- The `const path &` that `*` returns and `->` are modelled as the `string` in `element_value`. The `path` built from it is not modelled.
- The element offsets use `Npos` for `std::string::npos`, so no string longer than `npos - 1` is modelled.
- PathIter.PathIterator.Deref: when `first > second` the difference wraps modulo 2^64, as `size_t` does. The contract states the value only for the element shapes `build_elements` produces.

## Findings

| source | as written | input that shows it | evidently intended | confidence | as-written member | corrected member |
|---|---|---|---|---|---|---|
| src/codecvt/codecvt.h:143-162 | `do_out` on a state still owing continuation bytes (count > 0) calls `update_mbstate(char16_t)`, which has no branch for a positive count. The unit is accepted and `from_next` advances, yet the unit is never stored, so it is lost. | state count 1, value 0xE9 (one byte of U+00E9 owed), source unit 'A' (0x41), room for 1 byte: 0xA9 is written and 'A' is consumed without being encoded | drain the owed bytes before taking a new unit. `Codecvt16.DoOut` drains them on entry, whatever the source and destination hold, so it also differs from the source where no unit is lost: with bytes owed and an empty source (say count 1, value 0xE9, room for 1 byte), the source returns ok with nothing written and count still 1, while `Codecvt16.DoOut` writes 0xA9 and returns ok (partial when the owed bytes do not all fit); with bytes owed and an empty destination, the source returns ok and `Codecvt16.DoOut` returns partial | not executed | Codecvt16.ResumedOutDropsUnit | Codecvt16.DoOut |
| src/codecvt/codecvt.h:210-251 | `do_in` writes a queued low surrogate, then in the same iteration can write the next unit without re-checking `to_next < to_end`. One room left means a write one past `to_end`. | state count -1, value 0xDC00 (low surrogate queued), byte 0x41, room for 1 unit: writes [0xDC00, 0x41] | re-check room after writing the queued unit. `Codecvt16.DoIn` stops as soon as the queued unit fills the buffer. It therefore also differs from the source where no overrun happens: with the queued unit filling the last slot and a byte that only opens a sequence, the source consumes that byte and returns ok, while `Codecvt16.DoIn` returns ok one byte earlier; with the queued unit filling the last slot and a byte `update_mbstate` rejects (say count -1, value 0xDC00, byte 0x80, room for 1 unit), the source writes the unit and returns error, while `Codecvt16.DoIn` writes the unit and returns ok without reading the byte. In each case the byte is read on the next call | not executed | Codecvt16.InIterationOverruns | Codecvt16.DoIn |
