/*
 * python/Packer.py: the packer object. The barrel shifter and its residue
 * are fields that every pack call updates; the output stream is the
 * sequence of bytes written so far.
 */
module PyPacker {
  import opened BitString
  import opened LzConsts
  import opened Packing

  class Packer {
    var barrel: nat
    var residue: int
    /** The bytes written to the output stream. */
    var out: seq<Byte>

    ghost function State(): PackState
      reads this
    {
      PackState(barrel, residue)
    }

    /** Packer(compmode, ofp): an empty barrel over an output stream. */
    constructor ()
      ensures State() == PackStart && out == []
    {
      barrel := 0;
      residue := 0;
      out := [];
    }

    /**
     * pack: OR the codeword, masked to 12 bits, in above the residue; an
     * ordinary codeword adds its width and the comparison size is a byte,
     * the end-of-stream sentinel adds nothing and the comparison size is a
     * bit. Then write the barrel's low byte while the residue reaches the
     * comparison size. Returns the number of bytes written.
     */
    method Pack(ipCodeword: nat, codewordLength: nat) returns (byteCount: int)
      requires residue >= 0
      modifies this
      ensures var r := Packing.Pack(old(State()), ipCodeword, codewordLength);
        State() == r.st && out == old(out) + r.out && byteCount == |r.out|
    {
      byteCount := 0;
      barrel := ShiftIn(barrel, LowBits(ipCodeword, MaxCwLen), residue);
      var cmpSize;
      if ipCodeword != NullCw {
        residue := residue + codewordLength;
        cmpSize := ByteSize;
      } else {
        cmpSize := BitSize;
      }
      ghost var goal := Drain(barrel, residue, cmpSize);
      ghost var out0 := out;
      while residue >= cmpSize
        invariant Drain(barrel, residue, cmpSize).st == goal.st
        invariant out + Drain(barrel, residue, cmpSize).out == out0 + goal.out
        invariant byteCount == |out| - |out0|
        decreases residue
      {
        ghost var rest := Drain(barrel / 256, residue - 8, cmpSize);
        assert out + Drain(barrel, residue, cmpSize).out == (out + [barrel % 256]) + rest.out;
        byteCount := byteCount + 1;
        out := out + [barrel % 256];
        barrel := barrel / 256;
        residue := residue - ByteSize;
      }
    }
  }
}
