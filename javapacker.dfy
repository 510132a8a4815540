/*
 * java/codec/Packer.java: the packer object. The barrel shifter and its
 * residue are fields that every pack call updates; the output stream is
 * the sequence of bytes written so far.
 */
module JavaPacker {
  import opened BitString
  import opened LzConsts
  import opened Packing

  class Packer {
    var barrel: nat
    var residue: int
    /** The bytes written to the output stream. */
    var out: seq<Byte>

    ghost function State(): PackState
      reads this
    {
      PackState(barrel, residue)
    }

    /** Packer(compmode, ofp): an empty barrel over an output stream. */
    constructor ()
      ensures State() == PackStart && out == []
    {
      barrel := 0;
      residue := 0;
      out := [];
    }

    /**
     * pack: OR the masked codeword in above the residue, count its width
     * unless it is the end-of-stream sentinel, then emit the low byte while
     * a byte (for the sentinel: a bit) is pending. Returns the number of
     * bytes written.
     */
    method Pack(cw: nat, len: nat) returns (count: int)
      requires residue >= 0
      modifies this
      ensures var r := Packing.Pack(old(State()), cw, len);
        State() == r.st && out == old(out) + r.out && count == |r.out|
    {
      count := 0;
      barrel := ShiftIn(barrel, LowBits(cw, MaxCwLen), residue);
      if cw != NullCw {
        residue := residue + len;
      }
      ghost var threshold := if cw != NullCw then 8 else 1;
      ghost var goal := Drain(barrel, residue, threshold);
      ghost var out0 := out;
      while residue >= (if cw != NullCw then 8 else 1)
        invariant Drain(barrel, residue, threshold).st == goal.st
        invariant out + Drain(barrel, residue, threshold).out == out0 + goal.out
        invariant count == |out| - |out0|
        decreases residue
      {
        ghost var rest := Drain(barrel / 256, residue - 8, threshold);
        assert out + Drain(barrel, residue, threshold).out == (out + [barrel % 256]) + rest.out;
        out := out + [barrel % 256];
        count := count + 1;
        barrel := barrel / 256;
        residue := residue - 8;
      }
    }
  }
}
