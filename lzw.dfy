/*
 * The codec as functions of its state: the compressor's byte loop, the
 * decompressor's codeword loop, and the linked-list walk the decompressor
 * performs for every codeword. The three implementations run the same
 * algorithm; where they differ (the null codeword, what a full dictionary
 * does, how a bad stream ends) the functions take the variant or the reset
 * policy as a parameter.
 */
module Lzw {
  import opened BitString
  import opened LzConsts
  import opened LzTable
  import opened Packing

  datatype Variant = Java | Python | C

  /** The null codeword: 0xFFFF in Java and Python, the dictionary size in C. */
  function Null(v: Variant): nat
  {
    if v == C then CNullCw else NullCw
  }

  /** What a full dictionary does on a build, as each implementation is written. */
  function AsWritten(v: Variant): ResetPolicy
  {
    if v == C then ResetOnly else ResetThenWrite
  }

  function Reverse<T>(s: seq<T>): (r: seq<T>)
    ensures |r| == |s|
  {
    if s == [] then [] else Reverse(s[1..]) + [s[0]]
  }

  /** Popping a stack outputs its top first: the reversal starts with the last element. */
  lemma {:induction false} ReverseLast<T>(s: seq<T>)
    requires s != []
    ensures Reverse(s) == [s[|s| - 1]] + Reverse(s[..|s| - 1])
    decreases |s|
  {
    if |s| > 1 {
      ReverseLast(s[1..]);
      assert s[1..][..|s[1..]| - 1] == s[..|s| - 1][1..];
    }
  }

  // ---------------------------------------------------------------------
  // Compression
  // ---------------------------------------------------------------------

  /**
   * The compressor between input bytes: the dictionary, the codeword of the
   * string matched so far (the null codeword before the first byte) and the
   * width the next codeword is packed with.
   */
  datatype Enc = Enc(t: Table, prev: nat, size: int)

  ghost predicate EncOk(v: Variant, e: Enc)
  {
    Sized(e.t) && MinCwLen <= e.size <= MaxCwLen && (e.prev == Null(v) || e.prev < DictFull)
  }

  /** The packets an encoder step emits (none or one) and the state it leaves. */
  datatype Encoded = Encoded(e: Enc, packets: seq<Packet>)

  /** Every packet holds a dictionary codeword and a codec width. */
  ghost predicate CodecPackets(ps: seq<Packet>)
  {
    forall i :: 0 <= i < |ps| ==> ps[i].cw < DictFull && MinCwLen <= ps[i].len <= MaxCwLen
  }

  /**
   * One pass of the compressor's loop: the first byte becomes the string;
   * afterwards the string grows while the dictionary holds its extension,
   * and otherwise its codeword goes out, the extension is entered, and the
   * byte starts the next string.
   */
  function EncStep(v: Variant, policy: ResetPolicy, e: Enc, b: Byte): (r: Encoded)
    requires EncOk(v, e)
    ensures EncOk(v, r.e) && r.e.prev != Null(v) && CodecPackets(r.packets)
    ensures r.packets == [] || (e.prev != Null(v) && r.packets == [Packet(e.prev, e.size)])
  {
    if e.prev == Null(v) then Encoded(e.(prev := b), [])
    else
      var m := Match(e.t, e.prev, b);
      if m != NoMatch then Encoded(e.(prev := m), [])
      else
        var t := Build(e.t, Compressing, policy, e.prev, b);
        Encoded(Enc(t, b, t.len), [Packet(e.prev, e.size)])
  }

  /** The compressor's loop over the rest of the input. */
  function EncFrom(v: Variant, policy: ResetPolicy, e: Enc, y: seq<Byte>): (r: Encoded)
    requires EncOk(v, e)
    ensures EncOk(v, r.e) && CodecPackets(r.packets)
    ensures y != [] ==> r.e.prev != Null(v)
    ensures y == [] ==> r == Encoded(e, [])
    decreases |y|
  {
    if y == [] then Encoded(e, [])
    else
      var s := EncStep(v, policy, e, y[0]);
      var r := EncFrom(v, policy, s.e, y[1..]);
      Encoded(r.e, s.packets + r.packets)
  }

  /**
   * Java and Python reset the dictionary before compressing (the Java reset
   * leaves the width field alone); C starts from its static dictionary as
   * it stands.
   */
  function EncStart(v: Variant, t: Table): (e: Enc)
    requires Sized(t)
    ensures EncOk(v, e)
  {
    Enc(if v == C then t else t.(next := FirstCw), Null(v), MinCwLen)
  }

  /**
   * The codewords the compressor hands to its packer: everything the loop
   * emitted, then the string pending at end of input (Java and Python only
   * when there is one).
   */
  function Emitted(v: Variant, policy: ResetPolicy, t: Table, x: seq<Byte>): (ps: seq<Packet>)
    requires Sized(t)
    ensures CodecPackets(ps)
  {
    var r := EncFrom(v, policy, EncStart(v, t), x);
    if r.e.prev != Null(v) then r.packets + [Packet(r.e.prev, r.e.size)] else r.packets
  }

  lemma CodecPacketsAreOrdinary(ps: seq<Packet>)
    requires CodecPackets(ps)
    ensures forall i :: 0 <= i < |ps| ==> ps[i].cw != NullCw
  {
  }

  /**
   * The compressed bytes. Java and Python pack every codeword and then the
   * end-of-stream sentinel; C packs the loop's codewords and then the final
   * one with a flush, even when the input was empty and the final codeword
   * is the null codeword.
   */
  function Compress(v: Variant, policy: ResetPolicy, t: Table, x: seq<Byte>): seq<Byte>
    requires Sized(t)
  {
    var r := EncFrom(v, policy, EncStart(v, t), x);
    CodecPacketsAreOrdinary(r.packets);
    if v == C then
      var p := PackAll(r.packets);
      p.out + PackC(p.st, r.e.prev, r.e.size, true).out
    else
      var ps := Emitted(v, policy, t, x);
      CodecPacketsAreOrdinary(ps);
      PackStream(ps, r.e.size)
  }

  // ---------------------------------------------------------------------
  // The linked-list walk
  // ---------------------------------------------------------------------

  /** Where one step of the walk goes, and the byte it yields; Dangling when the read fails. */
  datatype Link = Link(byteVal: Byte, pointer: nat) | Dangling

  /**
   * One step of output_linked_list from `pointer`. A root yields itself and
   * ends the chain. The next free address, once a codeword has been seen,
   * is the KwK case: the previous codeword followed by its first byte (C
   * reuses the byte left over from the previous walk, which is that byte).
   * Anything else is read from the dictionary: Python's dictionary has no
   * key for an address that is not live, and an address past the array is
   * an out-of-bounds read in Java and C.
   */
  function Follow(v: Variant, t: Table, prev: nat, term: Byte, pointer: nat, byte: Byte): (r: Link)
    requires Sized(t)
  {
    if pointer < FirstCw then Link(pointer, Null(v))
    else if pointer == t.next && prev != Null(v) then Link(if v == C then byte else term, prev)
    else if v == Python then
      if Live(t, pointer) then Link(t.entries[pointer].byteVal, t.entries[pointer].pointer) else Dangling
    else if pointer < DictFull then Link(t.entries[pointer].byteVal, t.entries[pointer].pointer)
    else Dangling
  }

  /** How a walk ends: the bytes in output order and the last byte pushed, or a failure. */
  datatype Walked = Walked(bytes: seq<Byte>, last: Byte) | Overflow | Unreadable

  /**
   * The walk: follow the chain pushing each byte, failing when the stack
   * already holds `bound` bytes, then pop the stack to the output.
   */
  function Walk(v: Variant, t: Table, prev: nat, term: Byte, pointer: nat, byte: Byte,
                stack: seq<Byte>, bound: nat): (r: Walked)
    requires Sized(t) && |stack| <= bound
    decreases bound - |stack|
  {
    if pointer == Null(v) then Walked(Reverse(stack), byte)
    else match Follow(v, t, prev, term, pointer, byte)
      case Dangling => Unreadable
      case Link(b, p) =>
        if |stack| == bound then Overflow
        else Walk(v, t, prev, term, p, b, stack + [b], bound)
  }

  // ---------------------------------------------------------------------
  // Decompression
  // ---------------------------------------------------------------------

  /**
   * The decompressor between codewords: the dictionary, the previous
   * codeword (null before the first), the last byte of the previous walk,
   * the width to read with, the value in Java's codeword holder, and the
   * unpacker.
   */
  datatype Dec = Dec(t: Table, prev: nat, term: Byte, size: int, held: nat, ust: UnpackState)

  ghost predicate DecOk(v: Variant, d: Dec)
  {
    Sized(d.t) && MinCwLen <= d.size <= MaxCwLen && (v == C ==> UnpackerClean(d.ust))
  }

  /**
   * How decompression ends: the input is used up, a status is returned
   * (DECOMPRESSION_ERROR; C exits with it), or the implementation fails
   * outright (a Python KeyError, an out-of-bounds access in Java, undefined
   * behaviour in C).
   */
  datatype Ending = Finished | Failed(status: int) | Crashed

  /** One pass of the decompressor's loop: stop, or the bytes of one codeword and the next state. */
  datatype DecStep = Stop(end: Ending) | Emit(bytes: seq<Byte>, d: Dec, rest: seq<Byte>)

  /** The unpack call each variant makes. */
  function UnpackFor(v: Variant, st: UnpackState, input: seq<Byte>, len: nat): (r: Unpacked)
    ensures r.count + |r.rest| == |input| && r.rest == input[r.count..]
  {
    if v == Java then UnpackJava(st, input, len) else Unpack(st, input, len)
  }

  /** The stack bound: the configured maximum string length, or C's fixed stack array. */
  function StackBound(v: Variant, maxLen: nat): nat
  {
    if v == C then MaxWordLength else maxLen
  }

  /**
   * One pass of the decompressor's loop. Java and Python go on while unpack
   * read at least one byte, C while unpack did not hit end of input. A read
   * that ran dry mid-codeword leaves Java's codeword holder as it was and
   * gives Python the null codeword. A codeword beyond the next free address
   * is an error; otherwise the walk outputs its string, and from the second
   * codeword on an entry is built from the previous codeword and the walk's
   * last byte.
   */
  function DecodeStep(v: Variant, policy: ResetPolicy, maxLen: nat, d: Dec, input: seq<Byte>): (r: DecStep)
    requires DecOk(v, d)
    ensures r.Emit? ==> DecOk(v, r.d) && |r.rest| < |input|
  {
    var u := UnpackFor(v, d.ust, input, d.size);
    assert v == C ==> (u.cw.Some? ==> u.count >= 1 && UnpackerClean(u.st)) by {
      if v == C {
        UnpackKeepsClean(d.ust, input, d.size);
      }
    }
    if (v == C && u.cw == None) || (v != C && u.count == 0) then Stop(Finished)
    else
      var c := if u.cw.Some? then u.cw.value else if v == Java then d.held else Null(v);
      if c > d.t.next then Stop(Failed(DecompressionError))
      else match Walk(v, d.t, d.prev, d.term, c, if v == C then d.term else 0, [], StackBound(v, maxLen))
        case Overflow => if v == C then Stop(Crashed) else Stop(Failed(DecompressionError))
        case Unreadable => Stop(Crashed)
        case Walked(bs, last) =>
          var t := if d.prev != Null(v) then Build(d.t, Decompressing, policy, d.prev, last) else d.t;
          var size := if d.prev != Null(v) then t.len else d.size;
          Emit(bs, Dec(t, c, last, size, c, u.st), u.rest)
  }

  /** The output and the ending of decompression. */
  datatype Decoded = Decoded(end: Ending, out: seq<Byte>)

  /** The decompressor's loop over the rest of the input. */
  function DecodeFrom(v: Variant, policy: ResetPolicy, maxLen: nat, d: Dec, input: seq<Byte>): (r: Decoded)
    requires DecOk(v, d)
    decreases |input|
  {
    match DecodeStep(v, policy, maxLen, d, input)
    case Stop(e) => Decoded(e, [])
    case Emit(bs, d', rest) =>
      var r := DecodeFrom(v, policy, maxLen, d', rest);
      Decoded(r.end, bs + r.out)
  }

  /** The decompressor's starting state over a dictionary in decompress mode. */
  function DecStart(v: Variant, t: Table): (d: Dec)
    requires Sized(t)
    ensures DecOk(v, d)
  {
    Dec(t, Null(v), 0, MinCwLen, 0, UnpackStart)
  }

  function Decompress(v: Variant, policy: ResetPolicy, maxLen: nat, t: Table, input: seq<Byte>): Decoded
    requires Sized(t)
  {
    DecodeFrom(v, policy, maxLen, DecStart(v, t), input)
  }
}
