/*
 * Decompressing what the compressor produced gives back the input.
 *
 * The proof follows both loops side by side. Between codewords the
 * decompressor's dictionary is the compressor's dictionary one build
 * behind: they agree on every address the decompressor holds, the entry
 * the decompressor will build next is already in the compressor's
 * dictionary, and the widths they use agree (WidthLockstep). The unpacker
 * reads back exactly the codeword the packer wrote (UnpackRecovers), and
 * the walk spells out the codeword's string, including the KwK case where
 * the codeword is the entry the decompressor has not built yet.
 */
module RoundTrip {
  import opened BitString
  import opened LzConsts
  import opened LzTable
  import opened Packing
  import opened Lzw

  lemma {:induction false} ReverseSnoc<T>(s: seq<T>, x: T)
    ensures Reverse(s + [x]) == [x] + Reverse(s)
    decreases |s|
  {
    if s != [] {
      assert (s + [x])[1..] == s[1..] + [x];
      ReverseSnoc(s[1..], x);
    } else {
      assert Reverse([x]) == Reverse([]) + [x];
    }
  }

  /**
   * Walking from a codeword the dictionary holds pushes its string in
   * reverse, so the output is the string itself, and the last byte pushed
   * is its first byte.
   */
  lemma {:induction false} WalkSpells(v: Variant, t: Table, prev: nat, term: Byte, c: nat, byte: Byte,
                                      stack: seq<Byte>, bound: nat)
    requires ChainsDescend(t) && c < t.next
    requires |stack| + |Str(t.entries, c)| <= bound
    ensures Walk(v, t, prev, term, c, byte, stack, bound) ==
            Walked(Str(t.entries, c) + Reverse(stack), Str(t.entries, c)[0])
    decreases c
  {
    if c < FirstCw {
      var b: Byte := c;
      assert Follow(v, t, prev, term, c, byte) == Link(b, Null(v));
      ReverseSnoc(stack, b);
    } else {
      var e := t.entries[c];
      assert Follow(v, t, prev, term, c, byte) == Link(e.byteVal, e.pointer);
      WalkSpells(v, t, prev, term, e.pointer, e.byteVal, stack + [e.byteVal], bound);
      ReverseSnoc(stack, e.byteVal);
      StrFirst(t.entries, c);
    }
  }

  /**
   * The KwK case: a codeword equal to the next free address spells the
   * previous codeword's string followed by that string's first byte.
   */
  lemma WalkKwK(v: Variant, t: Table, prev: nat, term: Byte, byte: Byte, bound: nat)
    requires ChainsDescend(t) && prev < t.next < DictFull
    requires v == C ==> byte == term
    requires |Str(t.entries, prev)| < bound
    ensures Walk(v, t, prev, term, t.next, byte, [], bound) ==
            Walked(Str(t.entries, prev) + [term], Str(t.entries, prev)[0])
  {
    assert Follow(v, t, prev, term, t.next, byte) == Link(term, prev);
    WalkSpells(v, t, prev, term, prev, term, [term], bound);
    assert Reverse([term]) == [term] by {
      assert [term] == [] + [term];
      ReverseSnoc([], term);
    }
  }

  /**
   * The compressor and decompressor between codewords: the decompressor's
   * dictionary is the compressor's one build behind.
   */
  ghost predicate Lockstep(v: Variant, e: Enc, d: Dec)
  {
    ChainsDescend(e.t) && ChainsDescend(d.t) &&
    e.t.len == e.size == WidthC(e.t.next) && d.t.len == d.size == WidthD(d.t.next) &&
    e.prev < e.t.next &&
    (d.prev == Null(v) ==> e.t.next == FirstCw && d.t.next == FirstCw) &&
    (d.prev != Null(v) ==>
      e.t.next == NextAfter(d.t.next) && d.prev < d.t.next &&
      d.term == Str(d.t.entries, d.prev)[0] &&
      (forall a :: FirstCw <= a < d.t.next ==> e.t.entries[a] == d.t.entries[a]) &&
      (d.t.next < DictFull ==> e.t.entries[d.t.next] == Entry(d.prev, Str(e.t.entries, e.prev)[0])))
  }

  /**
   * Whether a build at a full dictionary could happen while the rest `y` of
   * the input is compressed: never under the reset-only policy, and not when
   * the compressor has room for every remaining byte.
   */
  ghost predicate NoFullWrite(policy: ResetPolicy, e: Enc, d: Dec, v: Variant, y: seq<Byte>)
  {
    policy == ResetOnly || (e.t.next + |y| <= DictFull && (d.prev == Null(v) || FirstCw < e.t.next))
  }

  /** The next build is safe: no reset-then-write, and not the first codeword's empty build. */
  ghost predicate RoomToBuild(policy: ResetPolicy, e: Enc, d: Dec, v: Variant)
  {
    policy == ResetOnly || (e.t.next < DictFull && (d.prev == Null(v) || FirstCw < e.t.next))
  }

  /** The string pending in the compressor. */
  ghost function Pending(e: Enc): seq<Byte>
    requires ChainsDescend(e.t) && e.prev < e.t.next
  {
    Str(e.t.entries, e.prev)
  }

  /** The unpacker returns the codeword the compressor wrote for its pending string. */
  lemma ReadPending(v: Variant, e: Enc, d: Dec, rest: seq<Byte>, tail: seq<bool>)
    requires Lockstep(v, e, d) && DecOk(v, d) && UnpackerClean(d.ust)
    requires Bits(d.ust.barrel, d.ust.currlen) + BytesBits(rest) == Bits(e.prev, e.size) + tail
    ensures var u := UnpackFor(v, d.ust, rest, d.size);
      u.cw == Some(e.prev) && u.count >= 1 && UnpackerClean(u.st) &&
      Bits(u.st.barrel, u.st.currlen) + BytesBits(u.rest) == tail
  {
    if d.prev != Null(v) {
      WidthLockstep(d.t.next);
    }
    CodewordFits(e.prev, e.t.next);
    UnpackRecovers(d.ust, rest, e.prev, e.size, tail);
    if v == Java {
      UnpackJavaAgrees(d.ust, rest, d.size);
    }
  }

  /** The walk from the codeword read spells the compressor's pending string. */
  lemma WalkPending(v: Variant, maxLen: nat, e: Enc, d: Dec)
    requires Lockstep(v, e, d) && DecOk(v, d)
    requires v != C ==> maxLen >= DictFull - FirstCw + 1
    ensures e.prev <= d.t.next
    ensures Walk(v, d.t, d.prev, d.term, e.prev, if v == C then d.term else 0, [], StackBound(v, maxLen)) ==
            Walked(Pending(e), Pending(e)[0])
  {
    var c := e.prev;
    var bound := StackBound(v, maxLen);
    var byte := if v == C then d.term else 0;
    if c == d.t.next && d.prev != Null(v) {
      StrFirst(e.t.entries, c);
      StrAgree(e.t.entries, d.t.entries, d.prev);
      WalkKwK(v, d.t, d.prev, d.term, byte, bound);
    } else {
      assert c < d.t.next;
      StrAgree(e.t.entries, d.t.entries, c);
      WalkSpells(v, d.t, d.prev, d.term, c, byte, [], bound);
    }
  }

  /**
   * One pass of the decompressor's loop when unpack returns a valid
   * codeword whose walk succeeds.
   */
  lemma StepEmits(v: Variant, policy: ResetPolicy, maxLen: nat, d: Dec, rest: seq<Byte>, c: nat, bs: seq<Byte>)
    requires DecOk(v, d) && c <= d.t.next && bs != []
    requires var u := UnpackFor(v, d.ust, rest, d.size); u.cw == Some(c) && u.count >= 1
    requires Walk(v, d.t, d.prev, d.term, c, if v == C then d.term else 0, [], StackBound(v, maxLen)) == Walked(bs, bs[0])
    ensures var u := UnpackFor(v, d.ust, rest, d.size);
      var t := if d.prev != Null(v) then Build(d.t, Decompressing, policy, d.prev, bs[0]) else d.t;
      DecodeStep(v, policy, maxLen, d, rest) ==
        Emit(bs, Dec(t, c, bs[0], if d.prev != Null(v) then t.len else d.size, c, u.st), u.rest)
  {
  }

  /**
   * The decompressor reads the codeword the compressor wrote for its
   * pending string, outputs that string, and moves to the state that
   * follows it.
   */
  lemma DecodeOne(v: Variant, policy: ResetPolicy, maxLen: nat, e: Enc, d: Dec, rest: seq<Byte>, tail: seq<bool>)
    requires Lockstep(v, e, d) && DecOk(v, d) && UnpackerClean(d.ust)
    requires v != C ==> maxLen >= DictFull - FirstCw + 1
    requires Bits(d.ust.barrel, d.ust.currlen) + BytesBits(rest) == Bits(e.prev, e.size) + tail
    ensures var s := DecodeStep(v, policy, maxLen, d, rest);
      s.Emit? && s.bytes == Pending(e) && s.d.prev == e.prev && s.d.term == Pending(e)[0] &&
      s.d.t == (if d.prev == Null(v) then d.t else Build(d.t, Decompressing, policy, d.prev, Pending(e)[0])) &&
      s.d.size == s.d.t.len && UnpackerClean(s.d.ust) &&
      Bits(s.d.ust.barrel, s.d.ust.currlen) + BytesBits(s.rest) == tail
  {
    ReadPending(v, e, d, rest, tail);
    WalkPending(v, maxLen, e, d);
    StepEmits(v, policy, maxLen, d, rest, e.prev, Pending(e));
  }

  /**
   * A match only extends the compressor's pending string by the byte; the
   * decompressor does not move.
   */
  lemma MatchKeepsLockstep(v: Variant, e: Enc, d: Dec, b: Byte)
    requires Lockstep(v, e, d) && EncOk(v, e)
    requires Match(e.t, e.prev, b) != NoMatch
    ensures var e' := e.(prev := Match(e.t, e.prev, b));
      Lockstep(v, e', d) && Pending(e') == Pending(e) + [b]
  {
    var m := Match(e.t, e.prev, b);
    StrFirst(e.t.entries, m);
  }

  /** The compressor's side of a mismatch: the new entry is (pending codeword, byte). */
  lemma MismatchEnc(v: Variant, policy: ResetPolicy, e: Enc, b: Byte)
    requires ChainsDescend(e.t) && e.t.len == e.size == WidthC(e.t.next) && e.prev < e.t.next
    requires e.prev != Null(v)
    requires policy == ResetOnly || e.t.next < DictFull
    requires Match(e.t, e.prev, b) == NoMatch
    ensures var e' := EncStep(v, policy, e, b).e;
      ChainsDescend(e'.t) && e'.t.len == e'.size == WidthC(e'.t.next) && e'.prev == b &&
      e'.t.next == NextAfter(e.t.next) &&
      (e.t.next < DictFull ==> e'.t.entries == e.t.entries[e.t.next := Entry(e.prev, b)]) &&
      (e.t.next == DictFull ==> e'.t.entries == e.t.entries)
  {
    BuildKeepsDescent(e.t, Compressing, policy, e.prev, b);
    BuildKeepsWidth(e.t, Compressing, policy, e.prev, b);
  }

  /**
   * The decompressor's side: building from its previous codeword and the
   * first byte of the new string reproduces the compressor's entry at
   * that address.
   */
  lemma MismatchDec(v: Variant, policy: ResetPolicy, e: Enc, d: Dec, d': Dec)
    requires Lockstep(v, e, d)
    requires policy == ResetOnly || d.prev == Null(v) || d.t.next < DictFull
    requires d'.prev == e.prev && d'.term == Pending(e)[0] && d'.size == d'.t.len
    requires d'.t == (if d.prev == Null(v) then d.t else Build(d.t, Decompressing, policy, d.prev, Pending(e)[0]))
    ensures ChainsDescend(d'.t) && d'.size == WidthD(d'.t.next) && e.prev < d'.t.next
    ensures d'.t.next == (if d.prev == Null(v) then FirstCw else NextAfter(d.t.next))
    ensures forall a :: FirstCw <= a < d'.t.next ==> e.t.entries[a] == d'.t.entries[a]
    ensures d'.term == Str(d'.t.entries, d'.prev)[0]
  {
    if d.prev != Null(v) {
      BuildKeepsDescent(d.t, Decompressing, policy, d.prev, Pending(e)[0]);
      BuildKeepsWidth(d.t, Decompressing, policy, d.prev, Pending(e)[0]);
    }
    StrAgree(e.t.entries, d'.t.entries, e.prev);
  }

  /** After a mismatch both sides have moved on and the lockstep holds again. */
  lemma MismatchKeepsLockstep(v: Variant, policy: ResetPolicy, e: Enc, d: Dec, d': Dec, b: Byte)
    requires Lockstep(v, e, d) && EncOk(v, e)
    requires Match(e.t, e.prev, b) == NoMatch
    requires RoomToBuild(policy, e, d, v)
    requires d'.prev == e.prev && d'.term == Pending(e)[0] && d'.size == d'.t.len
    requires d'.t == (if d.prev == Null(v) then d.t else Build(d.t, Decompressing, policy, d.prev, Pending(e)[0]))
    ensures Lockstep(v, EncStep(v, policy, e, b).e, d')
  {
    MismatchEnc(v, policy, e, b);
    MismatchDec(v, policy, e, d, d');
    var e' := EncStep(v, policy, e, b).e;
    assert Str(e'.t.entries, b) == [b];
  }

  /**
   * The packets still to come while `y` remains to be compressed: what the
   * loop emits for `y`, then the final codeword.
   */
  function Remaining(v: Variant, policy: ResetPolicy, e: Enc, y: seq<Byte>): (ps: seq<Packet>)
    requires EncOk(v, e)
  {
    var r := EncFrom(v, policy, e, y);
    r.packets + [Packet(r.e.prev, r.e.size)]
  }

  lemma DecodeFromEmit(v: Variant, policy: ResetPolicy, maxLen: nat, d: Dec, rest: seq<Byte>)
    requires DecOk(v, d) && DecodeStep(v, policy, maxLen, d, rest).Emit?
    ensures var s := DecodeStep(v, policy, maxLen, d, rest);
      var r := DecodeFrom(v, policy, maxLen, s.d, s.rest);
      DecodeFrom(v, policy, maxLen, d, rest) == Decoded(r.end, s.bytes + r.out)
  {
  }

  /** The last codeword read, only padding is left and the decompressor stops. */
  lemma DecodeLast(v: Variant, policy: ResetPolicy, maxLen: nat, e: Enc, d: Dec, rest: seq<Byte>, pad: seq<bool>)
    requires Lockstep(v, e, d) && DecOk(v, d) && UnpackerClean(d.ust)
    requires v != C ==> maxLen >= DictFull - FirstCw + 1
    requires |pad| < 8
    requires Bits(d.ust.barrel, d.ust.currlen) + BytesBits(rest) == Bits(e.prev, e.size) + pad
    ensures DecodeFrom(v, policy, maxLen, d, rest) == Decoded(Finished, Pending(e))
  {
    DecodeOne(v, policy, maxLen, e, d, rest, pad);
    var s := DecodeStep(v, policy, maxLen, d, rest);
    UnpackAtEnd(s.d.ust, s.rest, s.d.size, pad);
    assert DecodeStep(v, policy, maxLen, s.d, s.rest) == Stop(Finished);
    DecodeFromEmit(v, policy, maxLen, d, rest);
    assert DecodeFrom(v, policy, maxLen, s.d, s.rest) == Decoded(Finished, []);
    assert s.bytes + [] == Pending(e);
  }

  /** A matching byte: the compressor moves on, the stream still to come is unchanged. */
  lemma MatchStep(v: Variant, policy: ResetPolicy, e: Enc, d: Dec, w: seq<Byte>)
    requires Lockstep(v, e, d) && EncOk(v, e)
    requires w != [] && Match(e.t, e.prev, w[0]) != NoMatch
    ensures var e' := EncStep(v, policy, e, w[0]).e;
      Lockstep(v, e', d) && EncOk(v, e') && e'.t == e.t &&
      Remaining(v, policy, e, w) == Remaining(v, policy, e', w[1..]) &&
      Pending(e') == Pending(e) + [w[0]]
  {
    var s := EncStep(v, policy, e, w[0]);
    assert s.packets == [];
    MatchKeepsLockstep(v, e, d, w[0]);
  }

  /** A byte that ends the pending string: its packet comes first in the stream still to come. */
  lemma MismatchRemaining(v: Variant, policy: ResetPolicy, e: Enc, w: seq<Byte>, pad: seq<bool>)
    requires EncOk(v, e) && e.prev != Null(v)
    requires w != [] && Match(e.t, e.prev, w[0]) == NoMatch
    ensures var later := Remaining(v, policy, EncStep(v, policy, e, w[0]).e, w[1..]);
      PacketBitsFrom(Remaining(v, policy, e, w)) + pad == Bits(e.prev, e.size) + (PacketBitsFrom(later) + pad)
  {
    var s := EncStep(v, policy, e, w[0]);
    var p := Packet(e.prev, e.size);
    var later := Remaining(v, policy, s.e, w[1..]);
    assert Remaining(v, policy, e, w) == [p] + later;
    assert ([p] + later)[1..] == later;
    SeqAssoc(Bits(e.prev, e.size), PacketBitsFrom(later), pad);
  }

  /**
   * A byte that ends the pending string: the decompressor reads the
   * emitted codeword, outputs the pending string, and is in lockstep with
   * the compressor again.
   */
  lemma MismatchStep(v: Variant, policy: ResetPolicy, maxLen: nat, e: Enc, d: Dec, w: seq<Byte>,
                     rest: seq<Byte>, pad: seq<bool>)
    requires Lockstep(v, e, d) && EncOk(v, e) && DecOk(v, d) && UnpackerClean(d.ust)
    requires v != C ==> maxLen >= DictFull - FirstCw + 1
    requires RoomToBuild(policy, e, d, v)
    requires Bits(d.ust.barrel, d.ust.currlen) + BytesBits(rest) == PacketBitsFrom(Remaining(v, policy, e, w)) + pad
    requires w != [] && Match(e.t, e.prev, w[0]) == NoMatch
    ensures var e' := EncStep(v, policy, e, w[0]).e;
      var st := DecodeStep(v, policy, maxLen, d, rest);
      st.Emit? && st.bytes == Pending(e) &&
      Lockstep(v, e', st.d) && EncOk(v, e') && DecOk(v, st.d) && UnpackerClean(st.d.ust) &&
      st.d.prev != Null(v) && e'.t.next == NextAfter(e.t.next) &&
      Bits(st.d.ust.barrel, st.d.ust.currlen) + BytesBits(st.rest) == PacketBitsFrom(Remaining(v, policy, e', w[1..])) + pad &&
      Pending(e') == [w[0]]
  {
    var b := w[0];
    var e' := EncStep(v, policy, e, b).e;
    MismatchRemaining(v, policy, e, w, pad);
    DecodeOne(v, policy, maxLen, e, d, rest, PacketBitsFrom(Remaining(v, policy, e', w[1..])) + pad);
    var st := DecodeStep(v, policy, maxLen, d, rest);
    MismatchKeepsLockstep(v, policy, e, d, st.d, b);
    MismatchEnc(v, policy, e, b);
  }

  /** The output bookkeeping of a match: the byte moves from y to the pending string. */
  lemma ShiftOne<T>(pre: seq<T>, pend: seq<T>, p1: seq<T>, p: seq<T>, y: seq<T>)
    requires y != [] && pre + pend == p1 + y[1..] && p1 == p + [y[0]]
    ensures pre + pend == p + y
  {
    assert y == [y[0]] + y[1..];
    SeqAssoc(p, [y[0]], y[1..]);
  }

  /** The output bookkeeping of a mismatch: the pending string goes out, the byte is pending. */
  lemma EmitOne<T>(pre: seq<T>, pend: seq<T>, p1: seq<T>, p: seq<T>, y: seq<T>)
    requires y != [] && pre + pend == p1 + y[1..] && p1 == [y[0]]
    ensures (p + pre) + pend == p + y
  {
    assert y == [y[0]] + y[1..];
    SeqAssoc(p, pre, pend);
  }

  /** The compressor's loop over y then z: the packets of y come first. */
  lemma {:induction false} EncFromAppend(v: Variant, policy: ResetPolicy, e: Enc, y: seq<Byte>, z: seq<Byte>)
    requires EncOk(v, e)
    ensures var r := EncFrom(v, policy, e, y);
      var q := EncFrom(v, policy, r.e, z);
      EncFrom(v, policy, e, y + z) == Encoded(q.e, r.packets + q.packets)
    decreases |y|
  {
    if y == [] {
      assert y + z == z;
    } else {
      var s := EncStep(v, policy, e, y[0]);
      assert (y + z)[0] == y[0] && (y + z)[1..] == y[1..] + z;
      EncFromAppend(v, policy, s.e, y[1..], z);
      var r := EncFrom(v, policy, s.e, y[1..]);
      SeqAssoc(s.packets, r.packets, EncFrom(v, policy, r.e, z).packets);
    }
  }

  /**
   * The decompressor follows the compressor through y: from lockstep
   * before y it reaches a state `d'` in lockstep with the compressor after
   * y, having output `pre`, which with the compressor's new pending string
   * is the old pending string followed by y. The stream `z` after y is
   * left for `d'`.
   */
  lemma {:induction false} TrackTo(v: Variant, policy: ResetPolicy, maxLen: nat, e: Enc, d: Dec, y: seq<Byte>,
                                   z: seq<Byte>, rest: seq<Byte>, pad: seq<bool>)
    returns (pre: seq<Byte>, d': Dec, rest': seq<Byte>)
    requires Lockstep(v, e, d) && EncOk(v, e) && DecOk(v, d) && UnpackerClean(d.ust)
    requires v != C ==> maxLen >= DictFull - FirstCw + 1
    requires NoFullWrite(policy, e, d, v, y)
    requires Bits(d.ust.barrel, d.ust.currlen) + BytesBits(rest) == PacketBitsFrom(Remaining(v, policy, e, y + z)) + pad
    ensures var e' := EncFrom(v, policy, e, y).e;
      Lockstep(v, e', d') && DecOk(v, d') && UnpackerClean(d'.ust) &&
      Bits(d'.ust.barrel, d'.ust.currlen) + BytesBits(rest') == PacketBitsFrom(Remaining(v, policy, e', z)) + pad &&
      pre + Pending(e') == Pending(e) + y &&
      DecodeFrom(v, policy, maxLen, d, rest) == Followed(v, policy, maxLen, pre, d', rest')
    decreases |y|, 1
  {
    if y == [] {
      assert y + z == z;
      pre, d', rest' := [], d, rest;
    } else if Match(e.t, e.prev, y[0]) != NoMatch {
      pre, d', rest' := TrackToMatch(v, policy, maxLen, e, d, y, z, rest, pad);
    } else {
      pre, d', rest' := TrackToMismatch(v, policy, maxLen, e, d, y, z, rest, pad);
    }
  }

  /** What the decompressor outputs after `pre`, continuing from d on rest. */
  function Followed(v: Variant, policy: ResetPolicy, maxLen: nat, pre: seq<Byte>, d: Dec, rest: seq<Byte>): Decoded
    requires DecOk(v, d)
  {
    var r := DecodeFrom(v, policy, maxLen, d, rest);
    Decoded(r.end, pre + r.out)
  }

  /** The first byte of y extends the pending string: nothing is emitted yet. */
  lemma {:induction false} TrackToMatch(v: Variant, policy: ResetPolicy, maxLen: nat, e: Enc, d: Dec, y: seq<Byte>,
                                        z: seq<Byte>, rest: seq<Byte>, pad: seq<bool>)
    returns (pre: seq<Byte>, d': Dec, rest': seq<Byte>)
    requires Lockstep(v, e, d) && EncOk(v, e) && DecOk(v, d) && UnpackerClean(d.ust)
    requires v != C ==> maxLen >= DictFull - FirstCw + 1
    requires NoFullWrite(policy, e, d, v, y)
    requires Bits(d.ust.barrel, d.ust.currlen) + BytesBits(rest) == PacketBitsFrom(Remaining(v, policy, e, y + z)) + pad
    requires y != [] && Match(e.t, e.prev, y[0]) != NoMatch
    ensures var e' := EncFrom(v, policy, e, y).e;
      Lockstep(v, e', d') && DecOk(v, d') && UnpackerClean(d'.ust) &&
      Bits(d'.ust.barrel, d'.ust.currlen) + BytesBits(rest') == PacketBitsFrom(Remaining(v, policy, e', z)) + pad &&
      pre + Pending(e') == Pending(e) + y &&
      DecodeFrom(v, policy, maxLen, d, rest) == Followed(v, policy, maxLen, pre, d', rest')
    decreases |y|, 0
  {
    var e1 := EncStep(v, policy, e, y[0]).e;
    assert Lockstep(v, e1, d) && EncOk(v, e1) && NoFullWrite(policy, e1, d, v, y[1..]) &&
           Bits(d.ust.barrel, d.ust.currlen) + BytesBits(rest) == PacketBitsFrom(Remaining(v, policy, e1, y[1..] + z)) + pad &&
           Pending(e1) == Pending(e) + [y[0]] by {
      var w := y + z;
      assert w[0] == y[0] && w[1..] == y[1..] + z;
      MatchStep(v, policy, e, d, w);
    }
    pre, d', rest' := TrackTo(v, policy, maxLen, e1, d, y[1..], z, rest, pad);
    assert EncFrom(v, policy, e, y).e == EncFrom(v, policy, e1, y[1..]).e;
    ShiftOne(pre, Pending(EncFrom(v, policy, e, y).e), Pending(e1), Pending(e), y);
  }

  /**
   * The first byte of y ends the pending string: its codeword is emitted,
   * and the decompressor reads it and catches up.
   */
  lemma {:induction false} TrackToMismatch(v: Variant, policy: ResetPolicy, maxLen: nat, e: Enc, d: Dec, y: seq<Byte>,
                                           z: seq<Byte>, rest: seq<Byte>, pad: seq<bool>)
    returns (pre: seq<Byte>, d': Dec, rest': seq<Byte>)
    requires Lockstep(v, e, d) && EncOk(v, e) && DecOk(v, d) && UnpackerClean(d.ust)
    requires v != C ==> maxLen >= DictFull - FirstCw + 1
    requires NoFullWrite(policy, e, d, v, y)
    requires Bits(d.ust.barrel, d.ust.currlen) + BytesBits(rest) == PacketBitsFrom(Remaining(v, policy, e, y + z)) + pad
    requires y != [] && Match(e.t, e.prev, y[0]) == NoMatch
    ensures var e' := EncFrom(v, policy, e, y).e;
      Lockstep(v, e', d') && DecOk(v, d') && UnpackerClean(d'.ust) &&
      Bits(d'.ust.barrel, d'.ust.currlen) + BytesBits(rest') == PacketBitsFrom(Remaining(v, policy, e', z)) + pad &&
      pre + Pending(e') == Pending(e) + y &&
      DecodeFrom(v, policy, maxLen, d, rest) == Followed(v, policy, maxLen, pre, d', rest')
    decreases |y|, 0
  {
    var e1 := EncStep(v, policy, e, y[0]).e;
    var st := DecodeStep(v, policy, maxLen, d, rest);
    assert st.Emit? && st.bytes == Pending(e) && Pending(e1) == [y[0]] &&
           Lockstep(v, e1, st.d) && EncOk(v, e1) && DecOk(v, st.d) && UnpackerClean(st.d.ust) &&
           NoFullWrite(policy, e1, st.d, v, y[1..]) &&
           Bits(st.d.ust.barrel, st.d.ust.currlen) + BytesBits(st.rest) ==
             PacketBitsFrom(Remaining(v, policy, e1, y[1..] + z)) + pad by {
      var w := y + z;
      assert w[0] == y[0] && w[1..] == y[1..] + z;
      MismatchStep(v, policy, maxLen, e, d, w, rest, pad);
    }
    var pre1;
    pre1, d', rest' := TrackTo(v, policy, maxLen, e1, st.d, y[1..], z, st.rest, pad);
    DecodeFromEmit(v, policy, maxLen, d, rest);
    pre := Pending(e) + pre1;
    SeqAssoc(Pending(e), pre1, DecodeFrom(v, policy, maxLen, d', rest').out);
    assert EncFrom(v, policy, e, y).e == EncFrom(v, policy, e1, y[1..]).e;
    EmitOne(pre1, Pending(EncFrom(v, policy, e, y).e), Pending(e1), Pending(e), y);
  }

  /**
   * Decompressing the rest of the stream, from a decompressor in lockstep
   * with the compressor, outputs the compressor's pending string followed
   * by the rest of the input.
   */
  lemma Track(v: Variant, policy: ResetPolicy, maxLen: nat, e: Enc, d: Dec, y: seq<Byte>,
              rest: seq<Byte>, pad: seq<bool>)
    requires Lockstep(v, e, d) && EncOk(v, e) && DecOk(v, d) && UnpackerClean(d.ust)
    requires v != C ==> maxLen >= DictFull - FirstCw + 1
    requires NoFullWrite(policy, e, d, v, y)
    requires |pad| < 8
    requires Bits(d.ust.barrel, d.ust.currlen) + BytesBits(rest) == PacketBitsFrom(Remaining(v, policy, e, y)) + pad
    ensures DecodeFrom(v, policy, maxLen, d, rest) == Decoded(Finished, Pending(e) + y)
  {
    assert y + [] == y;
    var pre, d', rest' := TrackTo(v, policy, maxLen, e, d, y, [], rest, pad);
    var e' := EncFrom(v, policy, e, y).e;
    assert Remaining(v, policy, e', []) == [Packet(e'.prev, e'.size)];
    assert PacketBitsFrom([Packet(e'.prev, e'.size)]) == Bits(e'.prev, e'.size);
    DecodeLast(v, policy, maxLen, e', d', rest', pad);
  }

  // ---------------------------------------------------------------------
  // The whole stream
  // ---------------------------------------------------------------------

  /**
   * The compressor's width is the closed form for its next free address,
   * and its pending codeword, when there is one, is live or a root.
   */
  ghost predicate Paced(v: Variant, e: Enc)
  {
    EncOk(v, e) && e.t.len == e.size == WidthC(e.t.next) && (e.prev == Null(v) || e.prev < e.t.next)
  }

  ghost predicate AllFit(ps: seq<Packet>)
  {
    forall i :: 0 <= i < |ps| ==> Fits(ps[i])
  }

  /** Every codeword the compressor emits fits the width it is packed with. */
  lemma EncStepFits(v: Variant, policy: ResetPolicy, e: Enc, b: Byte)
    requires Paced(v, e)
    ensures Paced(v, EncStep(v, policy, e, b).e) && AllFit(EncStep(v, policy, e, b).packets)
  {
    if e.prev != Null(v) {
      CodewordFits(e.prev, e.t.next);
      if Match(e.t, e.prev, b) == NoMatch {
        BuildKeepsWidth(e.t, Compressing, policy, e.prev, b);
      }
    }
  }

  lemma {:induction false} EncFromFits(v: Variant, policy: ResetPolicy, e: Enc, y: seq<Byte>)
    requires Paced(v, e)
    ensures Paced(v, EncFrom(v, policy, e, y).e) && AllFit(EncFrom(v, policy, e, y).packets)
    decreases |y|
  {
    if y != [] {
      var s := EncStep(v, policy, e, y[0]);
      EncStepFits(v, policy, e, y[0]);
      EncFromFits(v, policy, s.e, y[1..]);
      var r := EncFrom(v, policy, s.e, y[1..]);
      assert EncFrom(v, policy, e, y).packets == s.packets + r.packets;
    }
  }

  /** The compressor after the first byte: the byte is the pending string. */
  function FirstStep(v: Variant, te: Table, b: Byte): (e: Enc)
    requires Sized(te)
    ensures EncOk(v, e)
  {
    EncStart(v, te).(prev := b)
  }

  /** Compressing a non-empty input: the first byte only starts the pending string. */
  lemma CompressFrom(v: Variant, policy: ResetPolicy, te: Table, x: seq<Byte>)
    requires Sized(te) && te.len == MinCwLen && (v == C ==> te.next == FirstCw)
    requires x != []
    ensures var r := EncFrom(v, policy, FirstStep(v, te, x[0]), x[1..]);
      var last := Packet(r.e.prev, r.e.size);
      AllFit(r.packets) && Fits(last) && r.e.prev < DictFull &&
      Remaining(v, policy, FirstStep(v, te, x[0]), x[1..]) == r.packets + [last] &&
      (v == C ==> Compress(v, policy, te, x) ==
                  PackAll(r.packets).out + PackC(PackAll(r.packets).st, r.e.prev, r.e.size, true).out) &&
      (v != C ==> Compress(v, policy, te, x) == PackStream(r.packets + [last], r.e.size))
  {
    var start := EncStart(v, te);
    var e1 := FirstStep(v, te, x[0]);
    assert EncStep(v, policy, start, x[0]) == Encoded(e1, []);
    var r := EncFrom(v, policy, e1, x[1..]);
    assert EncFrom(v, policy, start, x) == r;
    EncFromFits(v, policy, e1, x[1..]);
    CodewordFits(r.e.prev, r.e.t.next);
  }

  /** A bit string that extends `pre` by fewer than 8 bits: the rest is padding. */
  lemma PrefixPad(bs: seq<bool>, pre: seq<bool>) returns (pad: seq<bool>)
    requires pre <= bs && |bs| < |pre| + 8
    ensures |pad| < 8 && bs == pre + pad
  {
    pad := bs[|pre|..];
  }

  /** The compressed stream's bits begin with the codewords' bits and add at most 7 more. */
  lemma CompressedPrefix(v: Variant, policy: ResetPolicy, te: Table, x: seq<Byte>)
    requires Sized(te) && te.len == MinCwLen && (v == C ==> te.next == FirstCw)
    requires x != []
    ensures var pre := PacketBitsFrom(Remaining(v, policy, FirstStep(v, te, x[0]), x[1..]));
      var bs := BytesBits(Compress(v, policy, te, x));
      pre <= bs && |bs| < |pre| + 8
  {
    CompressFrom(v, policy, te, x);
    var r := EncFrom(v, policy, FirstStep(v, te, x[0]), x[1..]);
    CodecPacketsAreOrdinary(r.packets);
    StreamPrefix(v, r.packets, Packet(r.e.prev, r.e.size), Compress(v, policy, te, x));
  }

  /** The bits of a packed stream, whichever way its last codeword is packed. */
  lemma StreamPrefix(v: Variant, ps: seq<Packet>, last: Packet, out: seq<Byte>)
    requires AllFit(ps) && Fits(last) && last.cw < DictFull
    requires forall i :: 0 <= i < |ps| ==> ps[i].cw != NullCw
    requires v == C ==> out == PackAll(ps).out + PackC(PackAll(ps).st, last.cw, last.len, true).out
    requires v != C ==> out == PackStream(ps + [last], last.len)
    ensures var pre := PacketBitsFrom(ps + [last]);
      pre <= BytesBits(out) && |BytesBits(out)| < |pre| + 8
  {
    if v == C {
      PackStreamCBits(ps, last);
    } else {
      var all := ps + [last];
      assert forall i :: 0 <= i < |all| ==> Fits(all[i]) && all[i].cw != NullCw by {
        forall i | 0 <= i < |all|
          ensures Fits(all[i]) && all[i].cw != NullCw
        {
          if i < |ps| {
            assert all[i] == ps[i];
          }
        }
      }
      PackStreamBits(all, last.len);
    }
  }

  /** Before the second byte the two sides are in lockstep. */
  lemma StartLockstep(v: Variant, te: Table, td: Table, b: Byte)
    requires Sized(te) && te.len == MinCwLen && (v == C ==> te.next == FirstCw)
    requires Sized(td) && td.next == FirstCw && td.len == MinCwLen
    ensures Lockstep(v, FirstStep(v, te, b), DecStart(v, td)) && Pending(FirstStep(v, te, b)) == [b]
  {
  }

  /** Java and Python compress the empty input to nothing, which decompresses to nothing. */
  lemma EmptyRoundTrip(v: Variant, policy: ResetPolicy, maxLen: nat, te: Table, td: Table)
    requires Sized(te) && Sized(td) && v != C
    ensures Compress(v, policy, te, []) == []
    ensures Decompress(v, policy, maxLen, td, []) == Decoded(Finished, [])
  {
    assert Emitted(v, policy, te, []) == [];
    PackSentinel(PackStart, MinCwLen);
    UnpackAtEnd(UnpackStart, [], MinCwLen, []);
  }

  /**
   * The round trip. Decompressing the compressor's output gives back the
   * input, for every input under the reset-only policy, and under the
   * reset-then-write policy for every input short enough that the
   * dictionary never fills (at most 3841 bytes). C's compressor needs a
   * non-empty input (see CEmptyInput).
   */
  lemma CodecRoundTrip(v: Variant, policy: ResetPolicy, maxLen: nat, te: Table, td: Table, x: seq<Byte>)
    requires Sized(te) && te.len == MinCwLen && (v == C ==> te.next == FirstCw)
    requires Sized(td) && td.next == FirstCw && td.len == MinCwLen
    requires v != C ==> maxLen >= DictFull - FirstCw + 1
    requires v == C ==> x != []
    requires policy == ResetOnly || |x| <= DictFull - FirstCw + 1
    ensures Decompress(v, policy, maxLen, td, Compress(v, policy, te, x)) == Decoded(Finished, x)
  {
    if x == [] {
      EmptyRoundTrip(v, policy, maxLen, te, td);
    } else {
      CompressedPrefix(v, policy, te, x);
      var pad := PrefixPad(BytesBits(Compress(v, policy, te, x)),
                           PacketBitsFrom(Remaining(v, policy, FirstStep(v, te, x[0]), x[1..])));
      StartLockstep(v, te, td, x[0]);
      Track(v, policy, maxLen, FirstStep(v, te, x[0]), DecStart(v, td), x[1..], Compress(v, policy, te, x), pad);
      HeadTail(x);
    }
  }

  lemma HeadTail<T>(x: seq<T>)
    requires x != []
    ensures [x[0]] + x[1..] == x
  {
  }
}
