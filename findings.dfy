/*
 * Three places where the implementations, as written, do not give back
 * their input, each exhibited on a concrete input, next to the corrected
 * behaviour and its round trip.
 *
 * 1. Java and Python reset a full dictionary and then write the new entry
 *    at the first free address (ResetThenWrite). The compressor can emit
 *    that entry's codeword at once, while the decompressor, one build
 *    behind, still holds the entry from before the reset there. The input
 *    that shows it stays below 0x80, so it applies to Java as written
 *    despite point 3.
 * 2. C packs the compressor's final codeword even when the input was empty
 *    and there is none, so the empty input comes back as one zero byte.
 * 3. Java indexes its indirection table with a signed byte, so looking up
 *    any byte from 0x80 on reads outside the table and throws.
 */
module Findings {
  import opened BitString
  import opened LzConsts
  import opened LzTable
  import opened Packing
  import opened Lzw
  import opened RoundTrip

  // ---------------------------------------------------------------------
  // The C compressor on the empty input
  // ---------------------------------------------------------------------

  /**
   * As written, C compresses the empty input to two zero bytes (the null
   * codeword 4096 masked to 12 bits, packed with width 9 and flushed), and
   * decompresses those to a single zero byte.
   */
  lemma CEmptyInput(te: Table, td: Table, maxLen: nat)
    requires Sized(te) && Sized(td)
    ensures Compress(C, ResetOnly, te, []) == [0, 0]
    ensures Decompress(C, ResetOnly, maxLen, td, [0, 0]) == Decoded(Finished, [0])
  {
    CEmptyCompresses(te);
    CEmptyDecompresses(td, maxLen);
  }

  /** The C tail on the empty input: codeword 4096 masked to 0, nine bits flushed as two bytes. */
  lemma CEmptyCompresses(te: Table)
    requires Sized(te)
    ensures Compress(C, ResetOnly, te, []) == [0, 0]
  {
    LzConstsPow2();
    assert LowBits(CNullCw, MaxCwLen) == 0 by {
      DivModUnique(CNullCw, Pow2(MaxCwLen), 1, 0);
    }
    assert Drain(0, 9, 1) == Packed([0, 0], PackState(0, -7));
  }

  /** Two zero bytes read back as codeword 0, the byte 0, and then end of input. */
  lemma CEmptyDecompresses(td: Table, maxLen: nat)
    requires Sized(td)
    ensures Decompress(C, ResetOnly, maxLen, td, [0, 0]) == Decoded(Finished, [0])
  {
    var d := DecStart(C, td);
    ZeroBytesUnpack();
    var b: Byte := 0;
    assert Walk(C, td, CNullCw, 0, 0, 0, [], MaxWordLength) == Walked([0], 0) by {
      assert Follow(C, td, CNullCw, 0, 0, 0) == Link(b, CNullCw);
      assert Reverse([b]) == [b];
    }
    var d1 := Dec(td, 0, 0, MinCwLen, 0, UnpackState(0, 7));
    assert DecodeStep(C, ResetOnly, maxLen, d, [0, 0]) == Emit([0], d1, []);
    assert DecodeStep(C, ResetOnly, maxLen, d1, []) == Stop(Finished);
  }

  /** A fresh unpacker reads both zero bytes to get a 9-bit codeword 0, seven zero bits left over. */
  lemma ZeroBytesUnpack()
    ensures Unpack(UnpackStart, [0, 0], MinCwLen) == Unpacked(2, Some(0), UnpackState(0, 7), [])
  {
    LzConstsPow2();
    assert Load(UnpackStart, 0) == UnpackState(0, 8) && Load(UnpackState(0, 8), 0) == UnpackState(0, 16);
    assert LowBits(0, MinCwLen) == 0 && Shr(0, MinCwLen) == 0;
  }

  /**
   * C compression with the final codeword packed only when there is one:
   * the empty input compresses to nothing. Every other input compresses
   * as before.
   */
  function CompressCFixed(t: Table, x: seq<Byte>): (r: seq<Byte>)
    requires Sized(t)
    ensures x != [] ==> r == Compress(C, ResetOnly, t, x)
  {
    var r := EncFrom(C, ResetOnly, EncStart(C, t), x);
    CodecPacketsAreOrdinary(r.packets);
    var p := PackAll(r.packets);
    if r.e.prev == CNullCw then p.out
    else p.out + PackC(p.st, r.e.prev, r.e.size, true).out
  }

  /** With the fix, the C round trip holds for every input, the empty one included. */
  lemma CRoundTripFixed(maxLen: nat, te: Table, td: Table, x: seq<Byte>)
    requires Sized(te) && te.len == MinCwLen && te.next == FirstCw
    requires Sized(td) && td.next == FirstCw && td.len == MinCwLen
    ensures Decompress(C, ResetOnly, maxLen, td, CompressCFixed(te, x)) == Decoded(Finished, x)
  {
    if x == [] {
      assert CompressCFixed(te, x) == [];
      UnpackAtEnd(UnpackStart, [], MinCwLen, []);
    } else {
      CodecRoundTrip(C, ResetOnly, maxLen, te, td, x);
    }
  }

  // ---------------------------------------------------------------------
  // Java: the indirection table indexed by a signed byte
  // ---------------------------------------------------------------------

  /**
   * Java's (byte) cast: the same low eight bits read as a two's-complement
   * number, so the bytes 0x80 to 0xFF become negative.
   */
  function SignedByte(b: Byte): (r: int)
    ensures -128 <= r < 128 && (r - b) % 256 == 0
  {
    if b < 128 then b else b - 256
  }

  /**
   * entry_match as Java writes it: the indirection table's column is the
   * signed byte, and a column outside its 256 columns throws (None). A
   * byte below 0x80 is its own column, and the lookup is the table's match.
   */
  function JavaEntryMatch(t: Table, pointer: nat, b: Byte): (r: Option<int>)
    requires Sized(t)
    ensures r == None <==> b >= 0x80
    ensures b < 0x80 ==> r == Some(Match(t, pointer, b))
  {
    var column := SignedByte(b);
    if 0 <= column < 256 then Some(Match(t, pointer, column)) else None
  }

  /**
   * One pass of Java's compressor loop as written: the first byte becomes
   * the string without a lookup; every later byte goes through the signed
   * entry_match, and a throw ends the compression (None). build_entry's
   * signed column is only reached once the lookup has not thrown, so it
   * is in range. With a string pending, every byte from 0x80 on throws,
   * and every other pass is the compressor's step.
   */
  function JavaEncStep(policy: ResetPolicy, e: Enc, b: Byte): (r: Option<Encoded>)
    requires EncOk(Java, e)
    ensures e.prev != NullCw && b >= 0x80 ==> r == None
    ensures e.prev == NullCw || b < 0x80 ==> r == Some(EncStep(Java, policy, e, b))
  {
    if e.prev == NullCw then Some(Encoded(e.(prev := b), []))
    else
      match JavaEntryMatch(e.t, e.prev, b)
      case None => None
      case Some(m) =>
        if m != NoMatch then Some(Encoded(e.(prev := m), []))
        else
          var t := Build(e.t, Compressing, policy, e.prev, b);
          Some(Encoded(Enc(t, b, t.len), [Packet(e.prev, e.size)]))
  }

  /** A byte of y that Java's loop looks up with a negative column. */
  ghost predicate ThrowsAt(e: Enc, y: seq<Byte>, i: int)
  {
    0 <= i < |y| && y[i] >= 0x80 && (i > 0 || e.prev != NullCw)
  }

  /**
   * Java's compressor loop as written: it throws exactly when some byte
   * from 0x80 on comes while a string is pending, and otherwise it is the
   * compressor's loop.
   */
  function JavaEncFrom(policy: ResetPolicy, e: Enc, y: seq<Byte>): (r: Option<Encoded>)
    requires EncOk(Java, e)
    ensures r == None <==> exists i :: ThrowsAt(e, y, i)
    ensures r != None ==> r == Some(EncFrom(Java, policy, e, y))
    decreases |y|
  {
    if y == [] then Some(Encoded(e, []))
    else
      match JavaEncStep(policy, e, y[0])
      case None =>
        assert ThrowsAt(e, y, 0);
        None
      case Some(s) =>
        var rest := JavaEncFrom(policy, s.e, y[1..]);
        assert (exists i :: ThrowsAt(s.e, y[1..], i)) <==> (exists i :: ThrowsAt(e, y, i)) by {
          ShiftThrows(e, s.e, y);
        }
        match rest
        case None => None
        case Some(r) => Some(Encoded(r.e, s.packets + r.packets))
  }

  /** Once a string is pending, a throwing byte of y[1..] is one of y after its first. */
  lemma ShiftThrows(e: Enc, e1: Enc, y: seq<Byte>)
    requires y != [] && e1.prev != NullCw && (y[0] < 0x80 || e.prev == NullCw)
    ensures (exists i :: ThrowsAt(e1, y[1..], i)) <==> (exists i :: ThrowsAt(e, y, i))
  {
    if i :| ThrowsAt(e1, y[1..], i) {
      assert ThrowsAt(e, y, i + 1);
    }
    if i :| ThrowsAt(e, y, i) {
      assert i > 0 && ThrowsAt(e1, y[1..], i - 1);
    }
  }

  /**
   * Java's compress as written: the loop, which may throw, and then the
   * packing of the emitted codewords and the end-of-stream sentinel.
   * Input whose bytes after the first are all below 0x80 compresses as
   * the model's Java does; any later byte from 0x80 on throws.
   */
  function JavaCompress(t: Table, x: seq<Byte>): (r: Option<seq<Byte>>)
    requires Sized(t)
    ensures r == None <==> exists i :: 1 <= i < |x| && x[i] >= 0x80
    ensures r != None ==> r == Some(Compress(Java, ResetThenWrite, t, x))
  {
    var e := EncStart(Java, t);
    var r := JavaEncFrom(ResetThenWrite, e, x);
    assert (exists i :: ThrowsAt(e, x, i)) <==> (exists i :: 1 <= i < |x| && x[i] >= 0x80) by {
      if i :| 1 <= i < |x| && x[i] >= 0x80 {
        assert ThrowsAt(e, x, i);
      }
    }
    match r
    case None => None
    case Some(enc) =>
      var ps := if enc.e.prev != NullCw then enc.packets + [Packet(enc.e.prev, enc.e.size)] else enc.packets;
      assert ps == Emitted(Java, ResetThenWrite, t, x);
      CodecPacketsAreOrdinary(ps);
      Some(PackStream(ps, enc.e.size))
  }

  /**
   * As written, Java's compressor throws on the input [0x41, 0x80]: the
   * first byte becomes the pending string, and the lookup of (0x41, 0x80)
   * uses column -128.
   */
  lemma JavaSignedLookup(t: Table)
    requires Sized(t)
    ensures JavaCompress(t, [0x41, 0x80]) == None
  {
    assert [0x41, 0x80][1] >= 0x80;
  }

  // ---------------------------------------------------------------------
  // Java and Python: reset, then write
  // ---------------------------------------------------------------------

  /**
   * The compressor after the first k bytes of s, when every byte so far
   * has ended the pending string: the last byte is pending and the entry
   * at FirstCw + i holds the i-th pair of adjacent bytes.
   */
  ghost predicate RunState(v: Variant, e: Enc, s: seq<Byte>, k: int)
  {
    1 <= k <= |s| && k <= DictFull - FirstCw + 1 &&
    EncOk(v, e) && e.t.len == e.size == WidthC(e.t.next) &&
    e.prev == s[k - 1] && e.t.next == FirstCw - 1 + k &&
    forall a :: FirstCw <= a < e.t.next ==> e.t.entries[a] == Entry(s[a - FirstCw], s[a - FirstCw + 1])
  }

  /** No two positions of s start the same pair of adjacent bytes. */
  ghost predicate PairsDistinct(s: seq<Byte>)
  {
    forall i, j :: 0 <= i < j < |s| - 1 ==> s[i] != s[j] || s[i + 1] != s[j + 1]
  }

  /** On fresh pairs the compressor never matches: it emits and builds on every byte. */
  lemma RunStep(v: Variant, policy: ResetPolicy, e: Enc, s: seq<Byte>, k: int)
    requires RunState(v, e, s, k) && PairsDistinct(s) && k < |s| && k <= DictFull - FirstCw
    ensures RunState(v, EncStep(v, policy, e, s[k]).e, s, k + 1)
  {
    BuildKeepsWidth(e.t, Compressing, policy, e.prev, s[k]);
  }

  lemma {:induction false} RunFrom(v: Variant, policy: ResetPolicy, e: Enc, s: seq<Byte>, k: int, n: int)
    requires RunState(v, e, s, k) && PairsDistinct(s) && k <= n <= |s| && n <= DictFull - FirstCw + 1
    ensures RunState(v, EncFrom(v, policy, e, s[k..n]).e, s, n)
    decreases n - k
  {
    if k < n {
      assert s[k..n][0] == s[k] && s[k..n][1..] == s[k + 1..n];
      RunStep(v, policy, e, s, k);
      RunFrom(v, policy, EncStep(v, policy, e, s[k]).e, s, k + 1, n);
    }
  }

  /**
   * The probe: 3840 bytes below 127 whose adjacent pairs are all
   * distinct. Even positions 2j hold j / 32 (below 60), odd positions hold
   * 95 + j % 32 (95 to 126). Staying below 0x80 keeps Java's signed
   * lookup in range, so the probe shows the finding for Java as written.
   */
  function ProbeByte(k: nat): (b: Byte)
    requires k < 3840
    ensures k % 2 == 0 ==> b < 60
    ensures k % 2 == 1 ==> 95 <= b < 127
  {
    if k % 2 == 0 then (k / 2) / 32 else 95 + (k / 2) % 32
  }

  function Probe(): (s: seq<Byte>)
    ensures |s| == 3840
  {
    seq(3840, k requires 0 <= k < 3840 => ProbeByte(k))
  }

  lemma ProbePair(i: nat, j: nat)
    requires i < j < 3839
    ensures ProbeByte(i) != ProbeByte(j) || ProbeByte(i + 1) != ProbeByte(j + 1)
  {
    if i % 2 == j % 2 {
      var a, b := i / 2, j / 2;
      if i % 2 == 0 {
        assert (i + 1) / 2 == a && (j + 1) / 2 == b;
      } else {
        assert (i + 1) / 2 == a + 1 && (j + 1) / 2 == b + 1;
        if ProbeByte(i) == ProbeByte(j) && ProbeByte(i + 1) == ProbeByte(j + 1) {
          SameQuotientAndRemainder(a + 1, b + 1);
        }
      }
    }
  }

  /** Consecutive-index pairs: equal quotients and equal remainders of the predecessors. */
  lemma SameQuotientAndRemainder(a: nat, b: nat)
    requires a / 32 == b / 32 && (a - 1) % 32 == (b - 1) % 32
    ensures a == b
  {
  }

  /** The input that shows the finding: the probe, then 127 three times. */
  function ResetProbe(): (x: seq<Byte>)
    ensures |x| == 3843
  {
    Probe() + [127, 127, 127]
  }

  lemma ProbePairsDistinct()
    ensures PairsDistinct(Probe() + [127])
  {
    var s := Probe() + [127];
    forall i, j | 0 <= i < j < |s| - 1
      ensures s[i] != s[j] || s[i + 1] != s[j + 1]
    {
      if j < 3839 {
        ProbePair(i, j);
      } else {
        assert s[j + 1] == 127 && s[i + 1] == ProbeByte(i + 1);
      }
    }
  }

  /**
   * A sequence that fills the dictionary: 3841 bytes with distinct
   * adjacent pairs, ending in 127 and with no other 127.
   */
  ghost predicate Fills(f: seq<Byte>)
  {
    |f| == DictFull - FirstCw + 1 && PairsDistinct(f) && f[|f| - 1] == 127 &&
    forall i :: 0 <= i < |f| - 1 ==> f[i] != 127
  }

  /**
   * The compressor once f has filled the dictionary: the next free address
   * is DictFull and 127 is pending.
   */
  ghost predicate Full(v: Variant, e: Enc, f: seq<Byte>)
  {
    Fills(f) && RunState(v, e, f, DictFull - FirstCw + 1)
  }

  /** No entry of the full dictionary extends 127. */
  lemma NothingExtends127(v: Variant, e: Enc, f: seq<Byte>)
    requires Full(v, e, f)
    ensures Match(e.t, 127, 127) == NoMatch
  {
    var m := Match(e.t, 127, 127);
    if m != NoMatch {
      assert false;
    }
  }

  /**
   * The two bytes 127 127 after the full dictionary, under reset-then-write:
   * 127 is emitted with width 12, the reset writes (127, 127) at FirstCw,
   * the second 127 matches it, and FirstCw itself is emitted with width 9.
   */
  lemma EmitsFreshEntry(v: Variant, e: Enc, f: seq<Byte>)
    requires Full(v, e, f)
    ensures Remaining(v, ResetThenWrite, e, [127, 127]) == [Packet(127, 12), Packet(FirstCw, 9)]
  {
    NothingExtends127(v, e, f);
    Pow2Widths();
    var s1 := EncStep(v, ResetThenWrite, e, 127);
    assert s1.packets == [Packet(127, 12)];
    assert s1.e.t.next == FirstCw + 1 && s1.e.t.entries[FirstCw] == Entry(127, 127);
    assert s1.e.size == 9 && s1.e.prev == 127;
    assert Match(s1.e.t, 127, 127) == FirstCw;
    var s2 := EncStep(v, ResetThenWrite, s1.e, 127);
    assert s2 == Encoded(s1.e.(prev := FirstCw), []);
    assert [127, 127][1..] == [127];
  }

  /**
   * The decompressor at the next free address DictFull reads FirstCw with
   * width 9: the entry there is still the pair (b0, b1) from before the
   * reset, so it outputs b0 b1, and the stream ends.
   */
  lemma StaleRead(v: Variant, maxLen: nat, d: Dec, rest: seq<Byte>, pad: seq<bool>, b0: Byte, b1: Byte)
    requires v != C && maxLen >= 2
    requires DecOk(v, d) && UnpackerClean(d.ust) && ChainsDescend(d.t)
    requires d.t.next == DictFull && d.prev == 127 && d.size == 9 && d.t.entries[FirstCw] == Entry(b0, b1)
    requires |pad| < 8
    requires Bits(d.ust.barrel, d.ust.currlen) + BytesBits(rest) == Bits(FirstCw, 9) + pad
    ensures DecodeFrom(v, ResetThenWrite, maxLen, d, rest) == Decoded(Finished, [b0, b1])
  {
    Pow2Widths();
    UnpackRecovers(d.ust, rest, FirstCw, 9, pad);
    UnpackJavaAgrees(d.ust, rest, 9);
    var u := Unpack(d.ust, rest, 9);
    assert Str(d.t.entries, FirstCw) == [b0, b1];
    WalkSpells(v, d.t, 127, d.term, FirstCw, 0, [], maxLen);
    var t := Build(d.t, Decompressing, ResetThenWrite, 127, b0);
    var d2 := Dec(t, FirstCw, b0, t.len, FirstCw, u.st);
    assert DecodeStep(v, ResetThenWrite, maxLen, d, rest) == Emit([b0, b1], d2, u.rest);
    UnpackAtEnd(u.st, u.rest, t.len, pad);
    assert DecodeStep(v, ResetThenWrite, maxLen, d2, u.rest) == Stop(Finished);
  }

  /**
   * The decompressor in lockstep with the full compressor reads 127 (its
   * build fills the dictionary and drops the width to 9) and then FirstCw,
   * for which it outputs the stale pair, the first two bytes of f.
   */
  lemma DecodeAfterFull(v: Variant, maxLen: nat, e: Enc, d: Dec, rest: seq<Byte>, pad: seq<bool>, f: seq<Byte>)
    requires v != C && maxLen >= DictFull - FirstCw + 1
    requires Full(v, e, f) && Lockstep(v, e, d) && DecOk(v, d) && UnpackerClean(d.ust)
    requires |pad| < 8
    requires Bits(d.ust.barrel, d.ust.currlen) + BytesBits(rest) ==
             PacketBitsFrom([Packet(127, 12), Packet(FirstCw, 9)]) + pad
    ensures DecodeFrom(v, ResetThenWrite, maxLen, d, rest) == Decoded(Finished, [127, f[0], f[1]])
  {
    assert PacketBitsFrom([Packet(127, 12), Packet(FirstCw, 9)]) == Bits(127, 12) + Bits(FirstCw, 9) by {
      assert [Packet(127, 12), Packet(FirstCw, 9)][1..] == [Packet(FirstCw, 9)];
      assert PacketBitsFrom([Packet(FirstCw, 9)]) == Bits(FirstCw, 9) + PacketBitsFrom([]);
    }
    SeqAssoc(Bits(127, 12), Bits(FirstCw, 9), pad);
    assert e.prev == 127 && e.size == 12 && Pending(e) == [127];
    assert d.t.next == DictFull - 1 && d.prev != Null(v);
    DecodeOne(v, ResetThenWrite, maxLen, e, d, rest, Bits(FirstCw, 9) + pad);
    var st := DecodeStep(v, ResetThenWrite, maxLen, d, rest);
    BuildKeepsDescent(d.t, Decompressing, ResetThenWrite, d.prev, 127);
    assert d.t.entries[FirstCw] == e.t.entries[FirstCw] == Entry(f[0], f[1]);
    StaleRead(v, maxLen, st.d, st.rest, pad, f[0], f[1]);
    DecodeFromEmit(v, ResetThenWrite, maxLen, d, rest);
  }

  /** Compressing f after its first byte fills the dictionary. */
  lemma FillsDictionary(v: Variant, te: Table, f: seq<Byte>)
    requires v != C && Sized(te) && te.len == MinCwLen && Fills(f)
    ensures Full(v, EncFrom(v, ResetThenWrite, FirstStep(v, te, f[0]), f[1..]).e, f)
  {
    assert RunState(v, FirstStep(v, te, f[0]), f, 1);
    assert f[1..] == f[1..DictFull - FirstCw + 1];
    RunFrom(v, ResetThenWrite, FirstStep(v, te, f[0]), f, 1, DictFull - FirstCw + 1);
  }

  /** What was output before the pending 127 is f without it. */
  lemma PrefixBeforeLast(pre: seq<Byte>, f: seq<Byte>, b: Byte)
    requires f != [] && f[|f| - 1] == b && pre + [b] == [f[0]] + f[1..]
    ensures pre == f[..|f| - 1]
  {
    assert [f[0]] + f[1..] == f == f[..|f| - 1] + [b];
    SplitAlike(pre, [b], f[..|f| - 1], [b]);
  }

  /**
   * Decompressing the compression of f 127 127 follows the compressor up
   * to the full dictionary, having output f without its last byte by then.
   */
  lemma ReachesFull(v: Variant, maxLen: nat, te: Table, td: Table, f: seq<Byte>)
    returns (d': Dec, rest': seq<Byte>, pad: seq<bool>)
    requires v != C && Fills(f)
    requires Sized(te) && te.len == MinCwLen
    requires Sized(td) && td.next == FirstCw && td.len == MinCwLen
    requires maxLen >= DictFull - FirstCw + 1
    ensures var e' := EncFrom(v, ResetThenWrite, FirstStep(v, te, f[0]), f[1..]).e;
      Full(v, e', f) && Lockstep(v, e', d') && DecOk(v, d') && UnpackerClean(d'.ust) && |pad| < 8 &&
      Bits(d'.ust.barrel, d'.ust.currlen) + BytesBits(rest') == PacketBitsFrom(Remaining(v, ResetThenWrite, e', [127, 127])) + pad &&
      Decompress(v, ResetThenWrite, maxLen, td, Compress(v, ResetThenWrite, te, f + [127, 127])) ==
        Followed(v, ResetThenWrite, maxLen, f[..|f| - 1], d', rest')
  {
    var x := f + [127, 127];
    var out := Compress(v, ResetThenWrite, te, x);
    var e1 := FirstStep(v, te, f[0]);
    assert x[0] == f[0] && x[1..] == f[1..] + [127, 127];
    CompressedPrefix(v, ResetThenWrite, te, x);
    pad := PrefixPad(BytesBits(out), PacketBitsFrom(Remaining(v, ResetThenWrite, e1, x[1..])));
    StartLockstep(v, te, td, f[0]);
    var pre;
    pre, d', rest' := TrackTo(v, ResetThenWrite, maxLen, e1, DecStart(v, td), f[1..], [127, 127], out, pad);
    var e' := EncFrom(v, ResetThenWrite, e1, f[1..]).e;
    FillsDictionary(v, te, f);
    assert Pending(e') == [127] && Pending(e1) == [f[0]];
    PrefixBeforeLast(pre, f, 127);
  }

  lemma LastThenMore<T>(f: seq<T>, b: T, more: seq<T>)
    requires f != [] && f[|f| - 1] == b
    ensures f[..|f| - 1] + ([b] + more) == f + more
  {
    assert f == f[..|f| - 1] + [b];
  }

  /**
   * Any filling sequence f followed by 127 127 shows the finding: under
   * reset-then-write its compression decompresses to f followed by f's
   * first two bytes where 127 127 should be.
   */
  lemma ResetThenWriteLosesOn(v: Variant, maxLen: nat, te: Table, td: Table, f: seq<Byte>)
    requires v != C && Fills(f)
    requires Sized(te) && te.len == MinCwLen
    requires Sized(td) && td.next == FirstCw && td.len == MinCwLen
    requires maxLen >= DictFull - FirstCw + 1
    ensures Decompress(v, ResetThenWrite, maxLen, td, Compress(v, ResetThenWrite, te, f + [127, 127])) ==
            Decoded(Finished, f + [f[0], f[1]])
  {
    var d', rest', pad := ReachesFull(v, maxLen, te, td, f);
    var e' := EncFrom(v, ResetThenWrite, FirstStep(v, te, f[0]), f[1..]).e;
    LosesAfterFull(v, maxLen, e', d', rest', pad, f);
  }

  /**
   * From the full dictionary, with f less its last byte written, the
   * decompressor ends having written f and then f's first two bytes.
   */
  lemma LosesAfterFull(v: Variant, maxLen: nat, e: Enc, d: Dec, rest: seq<Byte>, pad: seq<bool>, f: seq<Byte>)
    requires v != C && maxLen >= DictFull - FirstCw + 1
    requires Full(v, e, f) && Lockstep(v, e, d) && DecOk(v, d) && UnpackerClean(d.ust) && |pad| < 8
    requires Bits(d.ust.barrel, d.ust.currlen) + BytesBits(rest) == PacketBitsFrom(Remaining(v, ResetThenWrite, e, [127, 127])) + pad
    ensures Followed(v, ResetThenWrite, maxLen, f[..|f| - 1], d, rest) == Decoded(Finished, f + [f[0], f[1]])
  {
    EmitsFreshEntry(v, e, f);
    DecodeAfterFull(v, maxLen, e, d, rest, pad, f);
    FollowedFinished(v, ResetThenWrite, maxLen, f[..|f| - 1], d, rest, [127, f[0], f[1]]);
    assert [127, f[0], f[1]] == [127] + [f[0], f[1]];
    LastThenMore(f, 127, [f[0], f[1]]);
  }

  /** A decoder that finishes writing `out` after `pre` was written has written pre + out. */
  lemma FollowedFinished(v: Variant, policy: ResetPolicy, maxLen: nat, pre: seq<Byte>, d: Dec, rest: seq<Byte>,
                         out: seq<Byte>)
    requires DecOk(v, d) && DecodeFrom(v, policy, maxLen, d, rest) == Decoded(Finished, out)
    ensures Followed(v, policy, maxLen, pre, d, rest) == Decoded(Finished, pre + out)
  {
  }

  lemma ThreeAfter<T>(p: seq<T>, a: T, b: T, c: T)
    ensures (p + [a]) + [b, c] == p + [a, b, c]
    ensures (p + [a, b, c])[|p| + 1] == b
  {
  }

  /** The probe followed by 127 fills the dictionary. */
  lemma ProbeFills()
    ensures Fills(Probe() + [127])
  {
    ProbePairsDistinct();
    var f := Probe() + [127];
    forall i | 0 <= i < |f| - 1
      ensures f[i] != 127
    {
      assert f[i] == ProbeByte(i);
    }
  }

  /**
   * The finding: under reset-then-write the compressed probe input
   * decompresses to a different string. Its last three bytes, 127 127 127,
   * come back as 127 0 95. This is Python as written; for Java as written
   * see JavaResetThenWriteLoses.
   */
  lemma ResetThenWriteLoses(v: Variant, maxLen: nat, te: Table, td: Table)
    requires v != C && AsWritten(v) == ResetThenWrite
    requires Sized(te) && te.len == MinCwLen
    requires Sized(td) && td.next == FirstCw && td.len == MinCwLen
    requires maxLen >= DictFull - FirstCw + 1
    ensures Decompress(v, ResetThenWrite, maxLen, td, Compress(v, ResetThenWrite, te, ResetProbe())) ==
            Decoded(Finished, Probe() + [127, 0, 95])
    ensures Probe() + [127, 0, 95] != ResetProbe()
  {
    var f := Probe() + [127];
    ProbeFills();
    ResetThenWriteLosesOn(v, maxLen, te, td, f);
    assert f[0] == 0 && f[1] == 95;
    ThreeAfter(Probe(), 127, 127, 127);
    ThreeAfter(Probe(), 127, 0, 95);
    assert (Probe() + [127, 0, 95])[|Probe()| + 1] != ResetProbe()[|Probe()| + 1];
  }

  /**
   * The finding for Java as written: every probe byte is below 0x80, so
   * the signed lookup never throws and Java's compressor produces the
   * model's bytes, which decompress to the probe with its last three
   * bytes changed.
   */
  lemma JavaResetThenWriteLoses(maxLen: nat, te: Table, td: Table)
    requires Sized(te) && te.len == MinCwLen
    requires Sized(td) && td.next == FirstCw && td.len == MinCwLen
    requires maxLen >= DictFull - FirstCw + 1
    ensures JavaCompress(te, ResetProbe()) == Some(Compress(Java, ResetThenWrite, te, ResetProbe()))
    ensures Decompress(Java, ResetThenWrite, maxLen, td, JavaCompress(te, ResetProbe()).value) ==
            Decoded(Finished, Probe() + [127, 0, 95])
    ensures Probe() + [127, 0, 95] != ResetProbe()
  {
    var x := ResetProbe();
    forall i | 1 <= i < |x|
      ensures x[i] < 0x80
    {
      if i < 3840 {
        assert x[i] == ProbeByte(i);
      }
    }
    ResetThenWriteLoses(Java, maxLen, te, td);
  }
}
