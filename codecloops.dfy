/*
 * The compressor's loop seen from the middle: what is still to be written
 * once part of the input has been read. The three compress methods keep
 * "written so far + still to write" constant, and the lemmas here show
 * that from the start this is exactly Lzw.Compress.
 */
module CodecLoops {
  import opened BitString
  import opened LzConsts
  import opened LzTable
  import opened Packing
  import opened Lzw
  import opened RoundTrip

  /**
   * The end of compress: Java and Python pack the pending string, if any,
   * and then the end-of-stream sentinel; C packs the pending codeword with
   * a flush, whatever it is.
   */
  ghost function Tail(v: Variant, e: Enc, st: PackState): seq<Byte>
    requires EncOk(v, e) && st.residue >= 0
  {
    if v == C then PackC(st, e.prev, e.size, true).out
    else if e.prev != Null(v) then
      var q := Pack(st, e.prev, e.size);
      q.out + Pack(q.st, EofFlush, e.size).out
    else Pack(st, EofFlush, e.size).out
  }

  /**
   * The bytes compress still writes from encoder state `e` and packer
   * state `st` with `y` left to read.
   */
  ghost function Rest(v: Variant, policy: ResetPolicy, e: Enc, st: PackState, y: seq<Byte>): seq<Byte>
    requires EncOk(v, e) && st.residue >= 0
    decreases |y|
  {
    if y == [] then Tail(v, e, st)
    else
      var s := EncStep(v, policy, e, y[0]);
      if s.packets == [] then Rest(v, policy, s.e, st, y[1..])
      else
        CodecPacketsAreOrdinary(s.packets);
        var q := Pack(st, e.prev, e.size);
        q.out + Rest(v, policy, s.e, q.st, y[1..])
  }

  /** The first byte becomes the string. */
  lemma StepFirst(v: Variant, policy: ResetPolicy, e: Enc, b: Byte)
    requires EncOk(v, e) && e.prev == Null(v)
    ensures EncStep(v, policy, e, b) == Encoded(e.(prev := b), [])
  {
  }

  /** The dictionary holds the extension: the string grows. */
  lemma StepMatch(v: Variant, policy: ResetPolicy, e: Enc, b: Byte, m: int)
    requires EncOk(v, e) && e.prev != Null(v)
    requires m == Match(e.t, e.prev, b) && m != NoMatch
    ensures EncStep(v, policy, e, b) == Encoded(e.(prev := m), [])
  {
  }

  /** The dictionary lacks the extension: emit, build, restart from the byte. */
  lemma StepMismatch(v: Variant, policy: ResetPolicy, e: Enc, b: Byte, t: Table)
    requires EncOk(v, e) && e.prev != Null(v)
    requires Match(e.t, e.prev, b) == NoMatch && t == Build(e.t, Compressing, policy, e.prev, b)
    ensures EncStep(v, policy, e, b) == Encoded(Enc(t, b, t.len), [Packet(e.prev, e.size)])
  {
  }

  /** Reading a byte that emits nothing. */
  lemma RestQuiet(v: Variant, policy: ResetPolicy, e: Enc, st: PackState, y: seq<Byte>, e': Enc)
    requires EncOk(v, e) && st.residue >= 0 && y != []
    requires EncStep(v, policy, e, y[0]) == Encoded(e', [])
    ensures EncOk(v, e')
    ensures Rest(v, policy, e, st, y) == Rest(v, policy, e', st, y[1..])
    ensures EncFrom(v, policy, e, y).e == EncFrom(v, policy, e', y[1..]).e
  {
  }

  /** Reading a byte that emits the string's codeword: it is packed next. */
  lemma RestEmit(v: Variant, policy: ResetPolicy, e: Enc, st: PackState, y: seq<Byte>, e': Enc, q: Packed)
    requires EncOk(v, e) && st.residue >= 0 && y != []
    requires EncStep(v, policy, e, y[0]) == Encoded(e', [Packet(e.prev, e.size)])
    requires q == Pack(st, e.prev, e.size)
    ensures EncOk(v, e') && q.st.residue >= 0
    ensures Rest(v, policy, e, st, y) == q.out + Rest(v, policy, e', q.st, y[1..])
    ensures EncFrom(v, policy, e, y).e == EncFrom(v, policy, e', y[1..]).e
  {
  }

  /**
   * The compressor's loop invariant: with `out` written, encoder state `e`,
   * packer state `st` and `y` left to read, the loop writes `goal` in all
   * and leaves the encoder in state `final`.
   */
  ghost predicate Midway(v: Variant, policy: ResetPolicy, e: Enc, st: PackState, y: seq<Byte>,
                         out: seq<Byte>, goal: seq<Byte>, final: Enc)
  {
    EncOk(v, e) && st.residue >= 0 &&
    out + Rest(v, policy, e, st, y) == goal && EncFrom(v, policy, e, y).e == final
  }

  /** A byte read that emits nothing keeps the invariant. */
  lemma MidwayQuiet(v: Variant, policy: ResetPolicy, e: Enc, st: PackState, y: seq<Byte>,
                    out: seq<Byte>, goal: seq<Byte>, final: Enc, e': Enc)
    requires Midway(v, policy, e, st, y, out, goal, final) && y != []
    requires EncStep(v, policy, e, y[0]) == Encoded(e', [])
    ensures Midway(v, policy, e', st, y[1..], out, goal, final)
  {
    RestQuiet(v, policy, e, st, y, e');
  }

  /** A byte read that emits the string's codeword, packed next, keeps the invariant. */
  lemma MidwayEmit(v: Variant, policy: ResetPolicy, e: Enc, st: PackState, y: seq<Byte>,
                   out: seq<Byte>, goal: seq<Byte>, final: Enc, e': Enc, q: Packed)
    requires Midway(v, policy, e, st, y, out, goal, final) && y != []
    requires EncStep(v, policy, e, y[0]) == Encoded(e', [Packet(e.prev, e.size)])
    requires q == Pack(st, e.prev, e.size)
    ensures Midway(v, policy, e', q.st, y[1..], out + q.out, goal, final)
  {
    RestEmit(v, policy, e, st, y, e', q);
    SeqAssoc(out, q.out, Rest(v, policy, e', q.st, y[1..]));
  }

  /** At end of input, what is left to write is the tail. */
  lemma MidwayDone(v: Variant, policy: ResetPolicy, e: Enc, st: PackState,
                   out: seq<Byte>, goal: seq<Byte>, final: Enc)
    requires Midway(v, policy, e, st, [], out, goal, final)
    ensures final == e && goal == out + Tail(v, e, st)
  {
  }

  /**
   * Packing the codewords emitted so far and then the rest gives the
   * packing of everything the loop emits over y, then the tail.
   */
  lemma {:induction false} RestFrom(v: Variant, policy: ResetPolicy, e: Enc, ps: seq<Packet>, y: seq<Byte>)
    requires EncOk(v, e) && CodecPackets(ps)
    ensures CodecPackets(ps + EncFrom(v, policy, e, y).packets)
    ensures var r := EncFrom(v, policy, e, y);
      var all := ps + r.packets;
      PackAll(ps).out + Rest(v, policy, e, PackAll(ps).st, y) == PackAll(all).out + Tail(v, r.e, PackAll(all).st)
    decreases |y|
  {
    CodecPacketsAreOrdinary(ps);
    var r := EncFrom(v, policy, e, y);
    if y == [] {
      assert ps + r.packets == ps;
    } else {
      var s := EncStep(v, policy, e, y[0]);
      var r1 := EncFrom(v, policy, s.e, y[1..]);
      assert r.packets == s.packets + r1.packets;
      var ps1 := ps + s.packets;
      assert CodecPackets(ps1);
      RestFrom(v, policy, s.e, ps1, y[1..]);
      SeqAssoc(ps, s.packets, r1.packets);
      CodecPacketsAreOrdinary(ps1);
      if s.packets == [] {
        assert ps1 == ps;
      } else {
        var q := Pack(PackAll(ps).st, e.prev, e.size);
        assert ps1[..|ps|] == ps;
        assert PackAll(ps1) == Packed(PackAll(ps).out + q.out, q.st);
        SeqAssoc(PackAll(ps).out, q.out, Rest(v, policy, s.e, q.st, y[1..]));
      }
    }
  }

  /** From the start, what compress writes is Lzw.Compress. */
  lemma RestIsCompress(v: Variant, policy: ResetPolicy, t: Table, st: PackState, x: seq<Byte>)
    requires Sized(t) && st == PackStart
    ensures Rest(v, policy, EncStart(v, t), st, x) == Compress(v, policy, t, x)
  {
    var r := EncFrom(v, policy, EncStart(v, t), x);
    assert CodecPackets([]);
    RestFrom(v, policy, EncStart(v, t), [], x);
    assert [] + r.packets == r.packets;
    CodecPacketsAreOrdinary(r.packets);
    if v != C && r.e.prev != Null(v) {
      var ps := r.packets + [Packet(r.e.prev, r.e.size)];
      assert ps[..|r.packets|] == r.packets;
      var p := PackAll(r.packets);
      var q := Pack(p.st, r.e.prev, r.e.size);
      assert PackAll(ps) == Packed(p.out + q.out, q.st);
      SeqAssoc(p.out, q.out, Pack(q.st, EofFlush, r.e.size).out);
    }
  }
}
