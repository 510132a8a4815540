/*
 * python/Unpacker.py: the unpacker object. Its barrel shifter and bit
 * count are fields that every unpack call updates; the input stream is
 * the sequence of bytes not yet read.
 */
module PyUnpacker {
  import opened BitString
  import opened LzConsts
  import opened Packing

  class Unpacker {
    var currlen: nat
    var barrel: nat
    /** The bytes of the input stream not yet read. */
    var input: seq<Byte>

    ghost function State(): UnpackState
      reads this
    {
      UnpackState(barrel, currlen)
    }

    /** Unpacker(compmode, ifp, ofp): an empty barrel over an input stream. */
    constructor (ifp: seq<Byte>)
      ensures State() == UnpackStart && input == ifp
    {
      currlen := 0;
      barrel := 0;
      input := ifp;
    }

    /**
     * unpack: while fewer than `codewordLength` bits are pending, read a
     * byte and OR it in above them; running out of input returns the bytes
     * read so far with the null codeword, keeping what was read. Otherwise
     * the low `codewordLength` bits are the codeword, and they are shifted
     * out. The result is the specification's unpack call, with the null
     * codeword standing for "no codeword".
     */
    method Unpack(codewordLength: nat) returns (byteCount: int, opCodeword: nat)
      modifies this
      ensures var u := Packing.Unpack(old(State()), old(input), codewordLength);
        byteCount == u.count && State() == u.st && input == u.rest &&
        opCodeword == (if u.cw.Some? then u.cw.value else NullCw)
    {
      byteCount := 0;
      ghost var f0 := Fill(State(), input, codewordLength);
      while currlen < codewordLength
        invariant var f := Fill(State(), input, codewordLength);
          f0 == f.(count := f.count + byteCount)
        decreases |input|
      {
        if input == [] {
          return byteCount, NullCw;
        }
        var ipbyte := input[0];
        input := input[1..];
        barrel := ShiftIn(barrel, ipbyte % 256, currlen);
        byteCount := byteCount + 1;
        currlen := currlen + ByteSize;
      }
      opCodeword := LowBits(barrel, codewordLength);
      currlen := currlen - codewordLength;
      barrel := Shr(barrel, codewordLength);
    }
  }
}
