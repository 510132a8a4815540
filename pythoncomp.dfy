/*
 * python/Compress.py: the compressor object. compress reads the input
 * stream one byte ahead, asks the dictionary for the extension of the
 * string matched so far, and hands codewords to the packer; it is proved
 * to write exactly the bytes of Lzw.Compress for the Python variant.
 */
module PyCompress {
  import opened BitString
  import opened LzConsts
  import opened LzTable
  import opened Packing
  import opened Lzw
  import opened RoundTrip
  import opened PyDictionary
  import opened PyPacker
  import opened CodecLoops

  /** The input still to be processed when `ipbyte` has been read ahead: the byte, unless it is end of input. */
  function Ahead(ipbyte: int): seq<Byte>
  {
    if 0 <= ipbyte < 256 then [ipbyte] else []
  }

  /** __convert_to_rootcw: a byte's root codeword. */
  function ConvertToRootcw(b: Byte): (cw: nat)
    ensures cw < FirstCw && cw == b
  {
    b + FirstRootCw
  }

  class Compress {
    var maxStringLength: int
    /** The bytes of the input stream not yet read. */
    var input: seq<Byte>

    /** Compress(ifp, ofp, grph, maxstrlen): a maximum string length of 0 selects MAXWORDLENGTH. */
    constructor (ifp: seq<Byte>, maxstrlen: int)
      ensures input == ifp
      ensures maxStringLength == if maxstrlen == 0 then MaxWordLength else maxstrlen
    {
      input := ifp;
      if maxstrlen == 0 {
        maxStringLength := MaxWordLength;
      } else {
        maxStringLength := maxstrlen;
      }
    }

    /** read_byte on the input stream: the next byte, or INPUTEOF once the stream is exhausted. */
    method ReadByte() returns (ipbyte: int)
      modifies this`input
      ensures old(input) == [] ==> ipbyte == InputEof && input == []
      ensures old(input) != [] ==> ipbyte == old(input)[0] && input == old(input)[1..]
    {
      if input == [] {
        ipbyte := InputEof;
      } else {
        ipbyte := input[0];
        input := input[1..];
      }
    }

    /**
     * One pass of compress's byte loop, over its local variables: the
     * first byte starts the string; a byte the dictionary holds extends
     * it; any other byte sends the string's codeword to the packer, enters
     * the extension and starts a new string. This is one step of the
     * specification's encoder, with the codeword it emits packed.
     */
    method CompressByte(dict: Dictionary, packer: Packer, ipbyte: Byte,
                        previousCodeword: nat, matchLengthSoFar: int, codeSize: int)
        returns (previousCodeword': nat, matchLengthSoFar': int, codeSize': int, packed: int)
      requires dict.Valid() && dict.compressMode && packer.residue >= 0
      requires EncOk(Python, Enc(dict.AsTable(), previousCodeword, codeSize))
      modifies dict, packer
      ensures dict.Valid() && dict.compressMode
      ensures var s := EncStep(Python, ResetThenWrite, old(Enc(dict.AsTable(), previousCodeword, codeSize)), ipbyte);
        Enc(dict.AsTable(), previousCodeword', codeSize') == s.e &&
        (s.packets == [] ==> packer.out == old(packer.out) && packer.State() == old(packer.State())) &&
        (s.packets != [] ==>
          var q := Pack(old(packer.State()), previousCodeword, codeSize);
          packer.out == old(packer.out) + q.out && packer.State() == q.st)
      ensures packed == |packer.out| - |old(packer.out)|
      ensures matchLengthSoFar' == if previousCodeword != NullCw && previousCodeword' >= FirstCw then matchLengthSoFar + 1 else 1
    {
      ghost var e := Enc(dict.AsTable(), previousCodeword, codeSize);
      previousCodeword', matchLengthSoFar', codeSize', packed := previousCodeword, matchLengthSoFar, codeSize, 0;
      if previousCodeword == NullCw {
        previousCodeword' := ConvertToRootcw(ipbyte);
        matchLengthSoFar' := 1;
        StepFirst(Python, ResetThenWrite, e, ipbyte);
      } else {
        var matchAddr := dict.EntryMatch(previousCodeword, ipbyte);
        if matchAddr != NoMatch {
          matchLengthSoFar' := matchLengthSoFar + 1;
          previousCodeword' := matchAddr;
          StepMatch(Python, ResetThenWrite, e, ipbyte, matchAddr);
        } else {
          packed := packer.Pack(previousCodeword, codeSize);
          codeSize' := dict.BuildEntry(previousCodeword, ipbyte);
          previousCodeword' := ConvertToRootcw(ipbyte);
          matchLengthSoFar' := 1;
          StepMismatch(Python, ResetThenWrite, e, ipbyte, dict.AsTable());
        }
      }
    }

    /**
     * compress: reset the dictionary, then for each byte read: the first
     * starts the string; a byte the dictionary holds extends it; any other
     * byte sends the string's codeword to the packer, enters the extension
     * and starts a new string. At end of input pack the pending string, if
     * any, and then the end-of-stream sentinel. From a packer with nothing
     * pending, the bytes written are Lzw.Compress of the input, and the
     * dictionary ends as the compressor's loop leaves it.
     */
    method Compress(dict: Dictionary, packer: Packer)
      requires dict.Valid() && dict.compressMode
      requires packer.State() == PackStart
      modifies this`input, dict, packer
      ensures packer.out == old(packer.out) + Lzw.Compress(Python, ResetThenWrite, old(dict.AsTable()), old(input))
      ensures dict.Valid() && dict.AsTable() == EncFrom(Python, ResetThenWrite, EncStart(Python, old(dict.AsTable())), old(input)).e.t
      ensures input == []
    {
      ghost var x := input;
      ghost var e := EncStart(Python, dict.AsTable());
      ghost var st := packer.State();
      ghost var goal := packer.out + Rest(Python, ResetThenWrite, e, st, x);
      ghost var final := EncFrom(Python, ResetThenWrite, e, x).e;
      RestIsCompress(Python, ResetThenWrite, dict.AsTable(), st, x);
      var previousCodeword: nat := NullCw;
      var matchLengthSoFar := 0;
      var opBytecount := 0;
      var codeSize := dict.ResetDictionary();
      var ipbyte := ReadByte();
      HeadTailRead(x, ipbyte, input);
      while ipbyte != InputEof
        invariant dict.Valid() && dict.compressMode
        invariant dict.AsTable() == e.t && previousCodeword == e.prev && codeSize == e.size && packer.State() == st
        invariant 0 <= ipbyte < 256 || (ipbyte == InputEof && input == [])
        invariant Midway(Python, ResetThenWrite, e, st, Ahead(ipbyte) + input, packer.out, goal, final)
        decreases |input|, |Ahead(ipbyte)|
      {
        ghost var y := Ahead(ipbyte) + input;
        ghost var out := packer.out;
        ghost var s := EncStep(Python, ResetThenWrite, e, ipbyte);
        assert y[0] == ipbyte && y[1..] == input;
        var n;
        previousCodeword, matchLengthSoFar, codeSize, n := CompressByte(dict, packer, ipbyte, previousCodeword, matchLengthSoFar, codeSize);
        opBytecount := opBytecount + n;
        if s.packets == [] {
          MidwayQuiet(Python, ResetThenWrite, e, st, y, out, goal, final, s.e);
        } else {
          MidwayEmit(Python, ResetThenWrite, e, st, y, out, goal, final, s.e, Pack(st, e.prev, e.size));
        }
        e := s.e;
        st := packer.State();
        ghost var rest := input;
        ipbyte := ReadByte();
        HeadTailRead(rest, ipbyte, input);
      }
      ghost var out := packer.out;
      if previousCodeword != NullCw {
        var n := packer.Pack(previousCodeword, codeSize);
        opBytecount := opBytecount + n;
        previousCodeword := NullCw;
        matchLengthSoFar := 0;
        ghost var q := Pack(st, e.prev, e.size);
        SeqAssoc(out, q.out, Pack(q.st, EofFlush, e.size).out);
      }
      var n := packer.Pack(EofFlush, codeSize);
      opBytecount := opBytecount + n;
      MidwayDone(Python, ResetThenWrite, e, st, out, goal, final);
    }
  }

  /** Reading ahead keeps "the byte read, then the stream" equal to what was left before the read. */
  lemma HeadTailRead(before: seq<Byte>, ipbyte: int, after: seq<Byte>)
    requires before == [] ==> ipbyte == InputEof && after == []
    requires before != [] ==> ipbyte == before[0] && after == before[1..]
    ensures Ahead(ipbyte) + after == before
  {
    if before != [] {
      assert [before[0]] + before[1..] == before;
    }
  }
}
