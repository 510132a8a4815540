/*
 * java/codec/Unpacker.java: the unpacker object. Its barrel shifter and
 * bit count are fields that every unpack call updates; the input stream
 * is the sequence of bytes not yet read.
 */
module JavaUnpacker {
  import opened BitString
  import opened LzConsts
  import opened Packing
  import opened JavaIntRef

  /**
   * What is left of an unpack call once `count` bytes are in: the read
   * loop from `st` over `input`, then the extraction.
   */
  ghost function Finish(st: UnpackState, input: seq<Byte>, count: nat, len: nat): Unpacked
  {
    var f := Fill(st, input, len);
    if f.dry then Unpacked(f.count + count, None, f.st, f.rest)
    else Extract(f.(count := f.count + count), len)
  }

  /** The first pass of the do-while loop, then the read loop. */
  lemma FinishFirst(st: UnpackState, input: seq<Byte>, len: nat, loaded: UnpackState)
    requires input != [] && loaded == Load(st, input[0])
    ensures UnpackJava(st, input, len) == Finish(loaded, input[1..], 1, len)
  {
  }

  /** One more pass of the read loop while short of a codeword. */
  lemma FinishStep(st: UnpackState, input: seq<Byte>, count: nat, len: nat, loaded: UnpackState)
    requires st.currlen < len && input != [] && loaded == Load(st, input[0])
    ensures Finish(st, input, count, len) == Finish(loaded, input[1..], count + 1, len)
  {
  }

  /** The input ran dry while short of a codeword. */
  lemma FinishDry(st: UnpackState, count: nat, len: nat)
    requires st.currlen < len
    ensures Finish(st, [], count, len) == Unpacked(count, None, st, [])
  {
  }

  /** A whole codeword is pending: extract it. */
  lemma FinishExtract(st: UnpackState, input: seq<Byte>, count: nat, len: nat)
    requires st.currlen >= len
    ensures Finish(st, input, count, len) ==
      Unpacked(count, Some(LowBits(st.barrel, len)), UnpackState(Shr(st.barrel, len), st.currlen - len), input)
  {
  }

  class Unpacker {
    var currlen: nat
    var barrel: nat
    var opCodeword: nat
    /** The bytes of the input stream not yet read. */
    var input: seq<Byte>

    ghost function State(): UnpackState
      reads this
    {
      UnpackState(barrel, currlen)
    }

    /** Unpacker(compmode, ifp): an empty barrel over an input stream. */
    constructor (ifp: seq<Byte>)
      ensures State() == UnpackStart && input == ifp
    {
      currlen := 0;
      barrel := 0;
      opCodeword := 0;
      input := ifp;
    }

    /**
     * unpack: a do-while loop that reads a byte, loads it above the pending
     * bits, and repeats while fewer than `len` bits are pending; running
     * out of input returns the bytes read so far and leaves the codeword
     * holder alone. Otherwise the low `len` bits are the codeword.
     */
    method Unpack(codeword: IntRef, len: nat) returns (count: int)
      modifies this, codeword
      ensures var u := UnpackJava(old(State()), old(input), len);
        count == u.count && State() == u.st && input == u.rest &&
        codeword.value == (if u.cw.Some? then u.cw.value else old(codeword.value))
    {
      count := 0;
      if input == [] {
        return;
      }
      ghost var u := UnpackJava(State(), input, len);
      ghost var st0 := State();
      ghost var in0 := input;
      // The first pass of the do-while loop.
      var ipbyte := input[0];
      input := input[1..];
      count := count + 1;
      barrel := ShiftIn(barrel, ipbyte % 256, currlen);
      currlen := currlen + 8;
      FinishFirst(st0, in0, len, State());
      while currlen < len
        modifies this
        invariant count >= 1 && u == Finish(State(), input, count, len)
        decreases |input|
      {
        if input == [] {
          FinishDry(State(), count, len);
          return;
        }
        ghost var st1 := State();
        ghost var in1 := input;
        ipbyte := input[0];
        input := input[1..];
        count := count + 1;
        barrel := ShiftIn(barrel, ipbyte % 256, currlen);
        currlen := currlen + 8;
        FinishStep(st1, in1, count - 1, len, State());
      }
      FinishExtract(State(), input, count, len);
      opCodeword := LowBits(barrel, len);
      currlen := currlen - len;
      barrel := Shr(barrel, len);
      codeword.value := opCodeword;
    }
  }
}
