/*
 * The packer and unpacker as functions of their barrel-shifter state.
 *
 * The packer ORs each codeword into a barrel above the `residue` bits it
 * already holds and then emits the barrel's low byte while enough bits are
 * pending; the unpacker ORs input bytes in above its `currlen` pending bits
 * until a whole codeword is there and takes the codeword off the bottom.
 * Both are least-significant-bit first, so the byte stream's bits (each byte
 * LSB first) are the codewords' bits (each LSB first) in order.
 *
 * The byte size (8) and the flush threshold (one bit) are written as
 * literals: they are BYTESIZE and BITSIZE.
 */
module Packing {
  import opened BitString
  import opened LzConsts

  datatype Option<T> = None | Some(value: T)

  /** The packer's barrel shifter and the number of bits it holds. */
  datatype PackState = PackState(barrel: nat, residue: int)

  /** The bytes one pack call emits, and the packer state it leaves. */
  datatype Packed = Packed(out: seq<Byte>, st: PackState)

  /** A codeword and the width it is packed with. */
  datatype Packet = Packet(cw: nat, len: nat)

  /** The fresh packer: an empty barrel. */
  const PackStart := PackState(0, 0)

  /** Between calls the residue is a part byte and the barrel holds nothing above it. */
  ghost predicate PackerClean(st: PackState)
  {
    0 <= st.residue < 8 && st.barrel < Pow2(st.residue)
  }

  /**
   * The emit loop: while at least `threshold` bits are pending, output the
   * low byte and shift it out.
   */
  function Drain(barrel: nat, residue: int, threshold: int): (r: Packed)
    requires threshold >= 1
    ensures r.st.residue < threshold
    ensures residue >= threshold - 8 ==> r.st.residue >= threshold - 8
    decreases residue
  {
    if residue >= threshold then
      var rest := Drain(barrel / 256, residue - 8, threshold);
      Packed([barrel % 256] + rest.out, rest.st)
    else Packed([], PackState(barrel, residue))
  }

  /**
   * Java and Python pack: the codeword, masked to 12 bits, goes in above the
   * residue; an ordinary codeword adds its width and emits whole bytes, the
   * end-of-stream sentinel adds nothing and emits every pending bit.
   */
  function Pack(st: PackState, cw: nat, len: nat): (r: Packed)
    requires st.residue >= 0
    ensures cw != NullCw ==> r.st.residue >= 0
  {
    var barrel := Or(st.barrel, LowBits(cw, MaxCwLen) * Pow2(st.residue));
    if cw != NullCw then Drain(barrel, st.residue + len, 8)
    else Drain(barrel, st.residue, 1)
  }

  /** C pack: the width always counts, and `flush` lowers the emit threshold to one bit. */
  function PackC(st: PackState, cw: nat, len: nat, flush: bool): (r: Packed)
    requires st.residue >= 0
    ensures !flush ==> r.st.residue >= 0
  {
    var barrel := Or(st.barrel, LowBits(cw, MaxCwLen) * Pow2(st.residue));
    Drain(barrel, st.residue + len, if flush then 1 else 8)
  }

  /** The bit string of a sequence of packets, each codeword LSB first. */
  function PacketBits(ps: seq<Packet>): (r: seq<bool>)
  {
    if ps == [] then [] else PacketBits(ps[..|ps| - 1]) + Bits(ps[|ps| - 1].cw, ps[|ps| - 1].len)
  }

  /** A packet whose codeword fits its width, a width the codec uses. */
  predicate Fits(p: Packet)
  {
    MinCwLen <= p.len <= MaxCwLen && p.cw < Pow2(p.len)
  }

  /** Packing ordinary codewords from a fresh packer, one call per packet. */
  function PackAll(ps: seq<Packet>): (r: Packed)
    requires forall i :: 0 <= i < |ps| ==> ps[i].cw != NullCw
    ensures r.st.residue >= 0
  {
    if ps == [] then Packed([], PackStart)
    else
      var r := PackAll(ps[..|ps| - 1]);
      var q := Pack(r.st, ps[|ps| - 1].cw, ps[|ps| - 1].len);
      Packed(r.out + q.out, q.st)
  }

  /** The Java and Python packer output for a codeword stream: every packet, then the sentinel. */
  function PackStream(ps: seq<Packet>, lastLen: nat): seq<Byte>
    requires forall i :: 0 <= i < |ps| ==> ps[i].cw != NullCw
  {
    var r := PackAll(ps);
    r.out + Pack(r.st, EofFlush, lastLen).out
  }

  /** Emitting whole bytes moves bits from the barrel to the output and loses none. */
  lemma {:induction false} DrainKeepsBits(barrel: nat, residue: int)
    requires 0 <= residue && barrel < Pow2(residue)
    ensures var r := Drain(barrel, residue, 8);
      BytesBits(r.out) + Bits(r.st.barrel, r.st.residue) == Bits(barrel, residue) &&
      PackerClean(r.st)
    decreases residue
  {
    var r := Drain(barrel, residue, 8);
    if residue >= 8 {
      ShiftBound(barrel, residue, 8);
      assert Pow2(8) == 256;
      DrainKeepsBits(barrel / 256, residue - 8);
      var rest := Drain(barrel / 256, residue - 8, 8);
      assert r.out == [barrel % 256] + rest.out;
      BitsSplitAt(barrel, 8, residue - 8, barrel % 256, barrel / 256);
      calc {
        BytesBits(r.out) + Bits(r.st.barrel, r.st.residue);
        Bits(barrel % 256, 8) + BytesBits(rest.out) + Bits(r.st.barrel, r.st.residue);
        Bits(barrel % 256, 8) + Bits(barrel / 256, residue - 8);
        Bits(barrel, residue);
      }
    } else {
      assert BytesBits([]) == [];
    }
  }

  /** Emitting down to one pending bit outputs the barrel's low bits rounded up to whole bytes. */
  lemma {:induction false} DrainAll(barrel: nat, residue: int)
    requires 0 <= residue
    ensures var r := Drain(barrel, residue, 1);
      residue <= 8 * |r.out| < residue + 8 && BytesBits(r.out) == Bits(barrel, 8 * |r.out|)
    decreases residue
  {
    var r := Drain(barrel, residue, 1);
    if residue >= 1 {
      assert Pow2(8) == 256;
      if residue - 8 >= 0 {
        DrainAll(barrel / 256, residue - 8);
      } else {
        assert Drain(barrel / 256, residue - 8, 1).out == [];
      }
      var rest := Drain(barrel / 256, residue - 8, 1);
      assert r.out == [barrel % 256] + rest.out;
      BitsSplitAt(barrel, 8, 8 * |rest.out|, barrel % 256, barrel / 256);
    } else {
      assert BytesBits([]) == [];
    }
  }

  /** The first w bits of x are the same however many more are taken. */
  lemma {:induction false} BitsPrefix(x: nat, w: nat, k: nat)
    ensures Bits(x, w + k)[..w] == Bits(x, w)
  {
    if w > 0 {
      BitsPrefix(x / 2, w - 1, k);
      assert Bits(x, w + k) == [x % 2 == 1] + Bits(x / 2, (w - 1) + k);
    }
  }

  lemma OnesOfMask(w: nat)
    requires w <= MaxCwLen
    ensures Bits(CodewordMask, w) == Ones(w)
  {
    assert Pow2(12) - 1 == CodewordMask by { LzConstsPow2(); }
    BitsOfAllOnes(12);
    BitsPrefix(CodewordMask, w, 12 - w);
  }

  /** Masking with CODEWORDMASK leaves a codeword that fits its width unchanged. */
  lemma MaskKeepsFit(cw: nat, len: nat)
    requires Fits(Packet(cw, len))
    ensures LowBits(cw, MaxCwLen) == cw
  {
    Pow2Monotonic(len, MaxCwLen);
    LowBitsOfSmall(cw, MaxCwLen);
  }

  lemma LzConstsPow2()
    ensures Pow2(8) == 256 && Pow2(12) == DictFull
  {
    assert Pow2(4) == 16;
  }

  /**
   * Packing a codeword that fits its width appends exactly its bits to the
   * packer's pending stream and leaves the packer clean.
   */
  lemma PackAppends(st: PackState, cw: nat, len: nat)
    requires PackerClean(st) && Fits(Packet(cw, len))
    ensures cw != NullCw
    ensures var r := Pack(st, cw, len);
      BytesBits(r.out) + Bits(r.st.barrel, r.st.residue) == Bits(st.barrel, st.residue) + Bits(cw, len) &&
      PackerClean(r.st)
  {
    assert cw != NullCw by {
      LzConstsPow2();
      Pow2Monotonic(len, 12);
    }
    var x := Or(st.barrel, LowBits(cw, MaxCwLen) * Pow2(st.residue));
    ShiftedIn(st, cw, len);
    PackDrains(st, cw, len, x);
    PackAppendsOf(st, cw, len, x);
  }

  /** Java and Python pack of an ordinary codeword is the emit loop on the barrel with the codeword ORed in. */
  lemma PackDrains(st: PackState, cw: nat, len: nat, x: nat)
    requires st.residue >= 0 && cw != NullCw && x == Or(st.barrel, LowBits(cw, MaxCwLen) * Pow2(st.residue))
    ensures Pack(st, cw, len) == Drain(x, st.residue + len, 8)
  {
  }

  /** PackAppends once the barrel `x` with the codeword in it is known. */
  lemma PackAppendsOf(st: PackState, cw: nat, len: nat, x: nat)
    requires st.residue >= 0 && cw != NullCw && Pack(st, cw, len) == Drain(x, st.residue + len, 8)
    requires x < Pow2(st.residue + len) && Bits(x, st.residue + len) == Bits(st.barrel, st.residue) + Bits(cw, len)
    ensures var r := Pack(st, cw, len);
      BytesBits(r.out) + Bits(r.st.barrel, r.st.residue) == Bits(st.barrel, st.residue) + Bits(cw, len) &&
      PackerClean(r.st)
  {
    DrainKeepsBits(x, st.residue + len);
  }

  /**
   * The sentinel empties the packer: the pending bits go out in at most one
   * byte whose padding bits are ones (the masked sentinel is all ones).
   */
  lemma PackSentinel(st: PackState, len: nat)
    requires PackerClean(st)
    ensures var r := Pack(st, EofFlush, len);
      |r.out| == (if st.residue == 0 then 0 else 1) &&
      BytesBits(r.out) == Bits(st.barrel, st.residue) + Ones(8 * |r.out| - st.residue)
  {
    LzConstsPow2();
    var x := Or(st.barrel, CodewordMask * Pow2(st.residue));
    assert LowBits(NullCw, MaxCwLen) == CodewordMask by {
      DivModUnique(NullCw, Pow2(MaxCwLen), 15, CodewordMask);
    }
    OrDisjoint(st.barrel, CodewordMask, st.residue);
    DrainAll(x, st.residue);
    var r := Pack(st, EofFlush, len);
    if st.residue > 0 {
      assert x == Pow2(st.residue) * CodewordMask + st.barrel;
      DivModUnique(x, Pow2(st.residue), CodewordMask, st.barrel);
      BitsSplitAt(x, st.residue, 8 - st.residue, st.barrel, CodewordMask);
      OnesOfMask(8 - st.residue);
    }
  }

  /**
   * The C flush: the last codeword's bits and then zero padding up to a
   * whole byte.
   */
  lemma PackCFlush(st: PackState, cw: nat, len: nat)
    requires PackerClean(st) && Fits(Packet(cw, len))
    ensures var r := PackC(st, cw, len, true);
      st.residue + len <= 8 * |r.out| < st.residue + len + 8 &&
      BytesBits(r.out) == Bits(st.barrel, st.residue) + Bits(cw, len) + Bits(0, 8 * |r.out| - st.residue - len)
  {
    var x := Or(st.barrel, LowBits(cw, MaxCwLen) * Pow2(st.residue));
    ShiftedIn(st, cw, len);
    PackCDrains(st, cw, len, true, x);
    PackCFlushOf(st, cw, len, x);
  }

  /**
   * A codeword that fits its width, ORed in above a clean packer's residue:
   * the barrel's bits are the pending bits followed by the codeword's.
   */
  lemma ShiftedIn(st: PackState, cw: nat, len: nat)
    requires PackerClean(st) && Fits(Packet(cw, len))
    ensures var x := Or(st.barrel, LowBits(cw, MaxCwLen) * Pow2(st.residue));
      x < Pow2(st.residue + len) && Bits(x, st.residue + len) == Bits(st.barrel, st.residue) + Bits(cw, len)
  {
    MaskKeepsFit(cw, len);
    OrDisjoint(st.barrel, cw, st.residue);
    BitsAppend(st.barrel, st.residue, cw, len);
  }

  /** PackCFlush once the barrel `x` with the codeword in it is known. */
  lemma PackCFlushOf(st: PackState, cw: nat, len: nat, x: nat)
    requires st.residue >= 0 && PackC(st, cw, len, true) == Drain(x, st.residue + len, 1)
    requires x < Pow2(st.residue + len) && Bits(x, st.residue + len) == Bits(st.barrel, st.residue) + Bits(cw, len)
    ensures var r := PackC(st, cw, len, true);
      st.residue + len <= 8 * |r.out| < st.residue + len + 8 &&
      BytesBits(r.out) == Bits(st.barrel, st.residue) + Bits(cw, len) + Bits(0, 8 * |r.out| - st.residue - len)
  {
    FlushBits(x, st.residue + len);
  }

  /** C pack is the emit loop run on the barrel with the codeword ORed in. */
  lemma PackCDrains(st: PackState, cw: nat, len: nat, flush: bool, x: nat)
    requires st.residue >= 0 && x == Or(st.barrel, LowBits(cw, MaxCwLen) * Pow2(st.residue))
    ensures PackC(st, cw, len, flush) == Drain(x, st.residue + len, if flush then 1 else 8)
  {
  }

  /** Emitting every pending bit of an n-bit barrel: its n bits, then zero padding. */
  lemma FlushBits(x: nat, n: nat)
    requires x < Pow2(n)
    ensures n <= 8 * |Drain(x, n, 1).out| < n + 8
    ensures BytesBits(Drain(x, n, 1).out) == Bits(x, n) + Bits(0, 8 * |Drain(x, n, 1).out| - n)
  {
    DrainAll(x, n);
    var r := Drain(x, n, 1);
    BitsWiden(x, n, 8 * |r.out| - n);
  }

  /** The C non-flushing pack is the Java pack of an ordinary codeword. */
  lemma PackCAgrees(st: PackState, cw: nat, len: nat)
    requires st.residue >= 0 && cw != NullCw
    ensures PackC(st, cw, len, false) == Pack(st, cw, len)
  {
  }

  /**
   * After any number of ordinary packets, the bytes emitted followed by the
   * barrel's pending bits are exactly the packets' bits.
   */
  lemma {:induction false} PackAllBits(ps: seq<Packet>)
    requires forall i :: 0 <= i < |ps| ==> Fits(ps[i])
    requires forall i :: 0 <= i < |ps| ==> ps[i].cw != NullCw
    ensures var r := PackAll(ps);
      BytesBits(r.out) + Bits(r.st.barrel, r.st.residue) == PacketBits(ps) && PackerClean(r.st)
  {
    if ps != [] {
      var init := ps[..|ps| - 1];
      var p := ps[|ps| - 1];
      PackAllBits(init);
      var r := PackAll(init);
      PackAppends(r.st, p.cw, p.len);
      var q := Pack(r.st, p.cw, p.len);
      assert PackAll(ps) == Packed(r.out + q.out, q.st);
      BytesBitsAppend(r.out, q.out);
      assert PacketBits(ps) == PacketBits(init) + Bits(p.cw, p.len);
      PendingAppend(BytesBits(r.out), BytesBits(q.out), Bits(r.st.barrel, r.st.residue),
                    Bits(q.st.barrel, q.st.residue), PacketBits(init), Bits(p.cw, p.len));
    }
  }

  /** Bits emitted in two rounds, with what is pending after each. */
  lemma PendingAppend(out1: seq<bool>, out2: seq<bool>, pend1: seq<bool>, pend2: seq<bool>,
                      done: seq<bool>, more: seq<bool>)
    requires out1 + pend1 == done
    requires out2 + pend2 == pend1 + more
    ensures (out1 + out2) + pend2 == done + more
  {
    calc {
      (out1 + out2) + pend2;
      out1 + (out2 + pend2);
      out1 + (pend1 + more);
      (out1 + pend1) + more;
    }
  }

  /** The unpacker's barrel shifter and the number of bits it holds. */
  datatype UnpackState = UnpackState(barrel: nat, currlen: nat)

  const UnpackStart := UnpackState(0, 0)

  ghost predicate UnpackerClean(st: UnpackState)
  {
    st.currlen < 8 && st.barrel < Pow2(st.currlen)
  }

  /** One input byte ORed in above the pending bits. */
  function Load(st: UnpackState, b: Byte): UnpackState
  {
    UnpackState(Or(st.barrel, (b % 256) * Pow2(st.currlen)), st.currlen + 8)
  }

  /** The bytes read by the read loop, the state it leaves, and whether input ran dry. */
  datatype Filled = Filled(count: nat, st: UnpackState, rest: seq<Byte>, dry: bool)

  /** The read loop: load bytes while fewer than `len` bits are pending. */
  function Fill(st: UnpackState, input: seq<Byte>, len: nat): (r: Filled)
    ensures r.count + |r.rest| == |input| && r.rest == input[r.count..]
    ensures !r.dry ==> r.st.currlen >= len
    decreases |input|
  {
    if st.currlen >= len then Filled(0, st, input, false)
    else if input == [] then Filled(0, st, [], true)
    else
      var r := Fill(Load(st, input[0]), input[1..], len);
      assert input[1..][r.count..] == input[r.count + 1..];
      r.(count := r.count + 1)
  }

  /**
   * One unpack call: the bytes it consumed, the codeword it produced
   * (None when the input ran dry first), the state and the unread input.
   */
  datatype Unpacked = Unpacked(count: nat, cw: Option<nat>, st: UnpackState, rest: seq<Byte>)

  /** Takes the low `len` bits off the barrel. */
  function Extract(f: Filled, len: nat): (r: Unpacked)
    requires f.st.currlen >= len
  {
    Unpacked(f.count, Some(LowBits(f.st.barrel, len)),
             UnpackState(Shr(f.st.barrel, len), f.st.currlen - len), f.rest)
  }

  /** Python and C unpack: read while short of a codeword, then extract it. */
  function Unpack(st: UnpackState, input: seq<Byte>, len: nat): (r: Unpacked)
    ensures r.count + |r.rest| == |input| && r.rest == input[r.count..]
  {
    var f := Fill(st, input, len);
    if f.dry then Unpacked(f.count, None, f.st, f.rest) else Extract(f, len)
  }

  /**
   * Java unpack: a do-while loop, so one byte is read before the first
   * test; running dry returns the count so far and produces no codeword.
   */
  function UnpackJava(st: UnpackState, input: seq<Byte>, len: nat): (r: Unpacked)
    ensures r.count + |r.rest| == |input| && r.rest == input[r.count..]
    ensures input != [] ==> r.count >= 1
  {
    if input == [] then Unpacked(0, None, st, [])
    else
      var f := Fill(Load(st, input[0]), input[1..], len);
      assert input[1..][f.count..] == input[f.count + 1..];
      var g := f.(count := f.count + 1);
      if g.dry then Unpacked(g.count, None, g.st, g.rest) else Extract(g, len)
  }

  /** When a codeword is not yet pending, the do-while and the while loop agree. */
  lemma UnpackJavaAgrees(st: UnpackState, input: seq<Byte>, len: nat)
    requires st.currlen < len
    ensures UnpackJava(st, input, len) == Unpack(st, input, len)
  {
  }

  /** A clean unpacker always reads at least one byte for a codec width. */
  lemma UnpackReads(st: UnpackState, input: seq<Byte>, len: nat)
    requires UnpackerClean(st) && MinCwLen <= len && input != []
    ensures Unpack(st, input, len).count >= 1
  {
  }

  /**
   * The read loop keeps every bit: its pending bits followed by the unread
   * bytes are the bits it started with, and it runs dry only when there
   * were fewer than `len` bits in all.
   */
  lemma {:induction false} FillKeepsBits(st: UnpackState, input: seq<Byte>, len: nat)
    requires st.barrel < Pow2(st.currlen)
    requires st.currlen < len + 8
    ensures var f := Fill(st, input, len);
      Bits(f.st.barrel, f.st.currlen) + BytesBits(f.rest) == Bits(st.barrel, st.currlen) + BytesBits(input) &&
      f.st.barrel < Pow2(f.st.currlen) && f.st.currlen < len + 8 &&
      (f.dry <==> st.currlen + 8 * |input| < len)
    decreases |input|
  {
    if st.currlen < len && input != [] {
      var l := Load(st, input[0]);
      LoadKeepsBits(st, input[0]);
      FillKeepsBits(l, input[1..], len);
      var f := Fill(st, input, len);
      SeqAssoc(Bits(st.barrel, st.currlen), Bits(input[0], 8), BytesBits(input[1..]));
    }
  }

  /** Loading a byte appends its eight bits to the pending bits. */
  lemma LoadKeepsBits(st: UnpackState, b: Byte)
    requires st.barrel < Pow2(st.currlen)
    ensures var l := Load(st, b);
      Bits(l.barrel, l.currlen) == Bits(st.barrel, st.currlen) + Bits(b, 8) &&
      l.barrel < Pow2(l.currlen)
  {
    LzConstsPow2();
    OrDisjoint(st.barrel, b, st.currlen);
    assert b % 256 == b;
    BitsAppend(st.barrel, st.currlen, b, 8);
  }

  lemma SeqAssoc<T>(a: seq<T>, b: seq<T>, c: seq<T>)
    ensures (a + b) + c == a + (b + c)
  {
  }

  /** Two ways of cutting one sequence at the same place give the same pieces. */
  lemma SplitAlike<T>(a: seq<T>, b: seq<T>, c: seq<T>, d: seq<T>)
    requires a + b == c + d && |a| == |c|
    ensures a == c && b == d
  {
    assert a == (a + b)[..|a|] && c == (c + d)[..|c|];
    assert b == (a + b)[|a|..] && d == (c + d)[|c|..];
  }

  /**
   * The heart of the packer/unpacker round trip: from a clean unpacker whose
   * pending bits and unread bytes begin with a codeword's bits, unpack with
   * that codeword's width returns the codeword, consumes at least one byte,
   * and leaves a clean unpacker over the rest of the bits.
   */
  lemma UnpackRecovers(st: UnpackState, input: seq<Byte>, cw: nat, len: nat, tail: seq<bool>)
    requires UnpackerClean(st) && Fits(Packet(cw, len))
    requires Bits(st.barrel, st.currlen) + BytesBits(input) == Bits(cw, len) + tail
    ensures var r := Unpack(st, input, len);
      r.cw == Some(cw) && r.count >= 1 && UnpackerClean(r.st) &&
      Bits(r.st.barrel, r.st.currlen) + BytesBits(r.rest) == tail
  {
    FillKeepsBits(st, input, len);
    var f := Fill(st, input, len);
    var x, n := f.st.barrel, f.st.currlen;
    var lo, hi := LowBits(x, len), Shr(x, len);
    BitsSplitAt(x, len, n - len, lo, hi);
    SeqAssoc(Bits(lo, len), Bits(hi, n - len), BytesBits(f.rest));
    SplitAlike(Bits(lo, len), Bits(hi, n - len) + BytesBits(f.rest), Bits(cw, len), tail);
    BitsInjective(lo, cw, len);
    ShiftBound(x, n, len);
  }

  /**
   * From a clean unpacker, an unpack that produces a codeword reads at least
   * one byte and leaves the unpacker clean again.
   */
  lemma UnpackKeepsClean(st: UnpackState, input: seq<Byte>, len: nat)
    requires UnpackerClean(st) && 8 <= len
    ensures var r := Unpack(st, input, len);
      r.cw.Some? ==> r.count >= 1 && UnpackerClean(r.st)
  {
    FillKeepsBits(st, input, len);
    var f := Fill(st, input, len);
    if !f.dry {
      ShiftBound(f.st.barrel, f.st.currlen, len);
    }
  }

  /**
   * At the end of a packed stream only padding (less than a byte) remains:
   * there is nothing left to read and every unpack variant reports zero
   * bytes.
   */
  lemma UnpackAtEnd(st: UnpackState, input: seq<Byte>, len: nat, pad: seq<bool>)
    requires UnpackerClean(st) && MinCwLen <= len
    requires Bits(st.barrel, st.currlen) + BytesBits(input) == pad && |pad| < 8
    ensures input == []
    ensures Unpack(st, input, len).count == 0 && Unpack(st, input, len).cw == None
    ensures UnpackJava(st, input, len).count == 0
  {
  }

  /** The unpacker run with a given width sequence, stopping at the first dry read. */
  function UnpackAll(st: UnpackState, input: seq<Byte>, widths: seq<nat>): seq<nat>
    decreases |widths|
  {
    if widths == [] then []
    else
      var r := Unpack(st, input, widths[0]);
      match r.cw
      case None => []
      case Some(c) => [c] + UnpackAll(r.st, r.rest, widths[1..])
  }

  function Codewords(ps: seq<Packet>): (r: seq<nat>)
    ensures |r| == |ps|
  {
    if ps == [] then [] else [ps[0].cw] + Codewords(ps[1..])
  }

  function Widths(ps: seq<Packet>): (r: seq<nat>)
    ensures |r| == |ps|
  {
    if ps == [] then [] else [ps[0].len] + Widths(ps[1..])
  }

  /**
   * Unpacking a suffix of the packets from an unpacker positioned at its
   * first bit recovers the suffix's codewords.
   */
  lemma {:induction false} UnpackAllRecovers(st: UnpackState, input: seq<Byte>, ps: seq<Packet>, pad: seq<bool>)
    requires UnpackerClean(st)
    requires forall i :: 0 <= i < |ps| ==> Fits(ps[i])
    requires Bits(st.barrel, st.currlen) + BytesBits(input) == PacketBitsFrom(ps) + pad
    ensures UnpackAll(st, input, Widths(ps)) == Codewords(ps)
    decreases |ps|
  {
    if ps != [] {
      var p, ps' := ps[0], ps[1..];
      assert Fits(p);
      var tail := PacketBitsFrom(ps') + pad;
      assert PacketBitsFrom(ps) == Bits(p.cw, p.len) + PacketBitsFrom(ps');
      SeqAssoc(Bits(p.cw, p.len), PacketBitsFrom(ps'), pad);
      UnpackRecovers(st, input, p.cw, p.len, tail);
      var r := Unpack(st, input, p.len);
      assert forall i :: 0 <= i < |ps'| ==> Fits(ps'[i]) by {
        forall i | 0 <= i < |ps'| ensures Fits(ps'[i]) {
          assert ps'[i] == ps[i + 1];
        }
      }
      UnpackAllRecovers(r.st, r.rest, ps', pad);
      UnpackAllStep(st, input, Widths(ps), p.cw);
      assert Widths(ps)[1..] == Widths(ps');
      assert Codewords(ps) == [p.cw] + Codewords(ps');
    }
  }

  /** An unpack that produces codeword c puts it at the head of UnpackAll. */
  lemma UnpackAllStep(st: UnpackState, input: seq<Byte>, widths: seq<nat>, c: nat)
    requires widths != [] && Unpack(st, input, widths[0]).cw == Some(c)
    ensures var r := Unpack(st, input, widths[0]);
      UnpackAll(st, input, widths) == [c] + UnpackAll(r.st, r.rest, widths[1..])
  {
  }

  /** The packets' bits, built from the front. */
  function PacketBitsFrom(ps: seq<Packet>): seq<bool>
  {
    if ps == [] then [] else Bits(ps[0].cw, ps[0].len) + PacketBitsFrom(ps[1..])
  }

  lemma {:induction false} PacketBitsBothWays(ps: seq<Packet>)
    ensures PacketBits(ps) == PacketBitsFrom(ps)
    decreases |ps|
  {
    if ps != [] {
      var init := ps[..|ps| - 1];
      PacketBitsBothWays(init);
      if init != [] {
        assert init[1..] == ps[1..][..|ps[1..]| - 1];
        PacketBitsBothWays(ps[1..]);
        PacketBitsBothWays(init[1..]);
        assert init[0] == ps[0];
      }
    }
  }

  /**
   * The Java and Python packer's bytes carry the packets' bits in order,
   * followed by less than a byte of padding.
   */
  lemma PackStreamBits(ps: seq<Packet>, lastLen: nat)
    requires forall i :: 0 <= i < |ps| ==> Fits(ps[i])
    requires forall i :: 0 <= i < |ps| ==> ps[i].cw != NullCw
    ensures var bs := BytesBits(PackStream(ps, lastLen));
      PacketBitsFrom(ps) <= bs && |bs| < |PacketBitsFrom(ps)| + 8
  {
    PackAllBits(ps);
    var r := PackAll(ps);
    PackSentinel(r.st, lastLen);
    var s := Pack(r.st, EofFlush, lastLen);
    BytesBitsAppend(r.out, s.out);
    PacketBitsBothWays(ps);
    SeqAssoc(BytesBits(r.out), Bits(r.st.barrel, r.st.residue), Ones(8 * |s.out| - r.st.residue));
  }

  /**
   * The C packer's bytes, the last packet flushed, carry all the packets'
   * bits in order, followed by less than a byte of padding.
   */
  lemma PackStreamCBits(ps: seq<Packet>, last: Packet)
    requires forall i :: 0 <= i < |ps| ==> Fits(ps[i])
    requires forall i :: 0 <= i < |ps| ==> ps[i].cw != NullCw
    requires Fits(last)
    ensures var r := PackAll(ps);
      var bs := BytesBits(r.out + PackC(r.st, last.cw, last.len, true).out);
      PacketBitsFrom(ps + [last]) <= bs && |bs| < |PacketBitsFrom(ps + [last])| + 8
  {
    PackAllBits(ps);
    var r := PackAll(ps);
    PackCFlush(r.st, last.cw, last.len);
    var q := PackC(r.st, last.cw, last.len, true);
    BytesBitsAppend(r.out, q.out);
    var all := ps + [last];
    assert all[..|all| - 1] == ps;
    assert PacketBits(all) == PacketBits(ps) + Bits(last.cw, last.len);
    PacketBitsBothWays(all);
    var pad := Bits(0, 8 * |q.out| - r.st.residue - last.len);
    FlushAppend(BytesBits(r.out), BytesBits(q.out), Bits(r.st.barrel, r.st.residue),
                PacketBits(ps), Bits(last.cw, last.len), pad);
  }

  /** Bits emitted, then a flush of what was pending, one more codeword and padding. */
  lemma FlushAppend(out1: seq<bool>, out2: seq<bool>, pend: seq<bool>,
                    done: seq<bool>, more: seq<bool>, pad: seq<bool>)
    requires out1 + pend == done
    requires out2 == pend + more + pad
    ensures out1 + out2 == (done + more) + pad
  {
    calc {
      out1 + out2;
      out1 + ((pend + more) + pad);
      ((out1 + pend) + more) + pad;
    }
  }

  /**
   * The packer/unpacker round trip: the Java and Python packer's bytes for
   * a codeword stream, unpacked with the same widths, give back the
   * codewords in order.
   */
  lemma PackUnpackRoundTrip(ps: seq<Packet>, lastLen: nat)
    requires forall i :: 0 <= i < |ps| ==> Fits(ps[i])
    ensures forall i :: 0 <= i < |ps| ==> ps[i].cw != NullCw
    ensures UnpackAll(UnpackStart, PackStream(ps, lastLen), Widths(ps)) == Codewords(ps)
  {
    LzConstsPow2();
    forall i | 0 <= i < |ps| ensures ps[i].cw != NullCw {
      Pow2Monotonic(ps[i].len, 12);
    }
    PackStreamBits(ps, lastLen);
    var bs := BytesBits(PackStream(ps, lastLen));
    var pad := bs[|PacketBitsFrom(ps)|..];
    assert bs == PacketBitsFrom(ps) + pad;
    assert Bits(0, 0) == [];
    UnpackAllRecovers(UnpackStart, PackStream(ps, lastLen), ps, pad);
  }
}
