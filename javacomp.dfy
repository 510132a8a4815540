/*
 * java/codec/Comp.java: the compressor object. Its loop reads the input
 * stream byte by byte, asks the dictionary for the extension of the
 * string matched so far, and hands codewords to the packer; it is proved
 * to write exactly the bytes of Lzw.Compress.
 */
module JavaComp {
  import opened BitString
  import opened LzConsts
  import opened LzTable
  import opened Packing
  import opened Lzw
  import opened RoundTrip
  import opened JavaDict
  import opened JavaPacker
  import opened CodecLoops

  class Comp {
    var matchLengthSoFar: int
    var matchAddr: int
    var codeSize: int
    var previousCodeword: nat
    var ipBytecount: int
    var opBytecount: int
    var maxStringLength: int
    /** The bytes of the input stream not yet read. */
    var input: seq<Byte>

    /** Comp(maxstrlen, ifp). */
    constructor (maxstrlen: int, ifp: seq<Byte>)
      ensures matchLengthSoFar == 0 && maxStringLength == maxstrlen && input == ifp
      ensures ipBytecount == 0 && opBytecount == 0
    {
      matchLengthSoFar := 0;
      maxStringLength := maxstrlen;
      input := ifp;
      ipBytecount := 0;
      opBytecount := 0;
    }

    /** Comp(): the default maximum string length, over standard input. */
    constructor Default(stdin: seq<Byte>)
      ensures matchLengthSoFar == 0 && maxStringLength == MaxWordLength && input == stdin
      ensures ipBytecount == 0 && opBytecount == 0
    {
      matchLengthSoFar := 0;
      maxStringLength := MaxWordLength;
      input := stdin;
      ipBytecount := 0;
      opBytecount := 0;
    }

    /**
     * One pass of compress's byte loop: the first byte starts the string; a
     * byte the dictionary holds extends it; any other byte sends the
     * string's codeword to the packer, enters the extension and starts a
     * new string. This is one step of the specification's encoder, with
     * the codeword it emits packed.
     */
    method CompressByte(dict: Dict, packer: Packer)
      requires input != []
      requires dict.Valid() && dict.compressMode && packer.residue >= 0
      requires EncOk(Java, Enc(dict.AsTable(), previousCodeword, codeSize))
      requires matchLengthSoFar >= 0 && (previousCodeword == NullCw ==> matchLengthSoFar == 0)
      modifies this, dict, dict.dictionary, dict.indirection, packer
      ensures input == old(input[1..]) && ipBytecount == old(ipBytecount) + 1
      ensures dict.Valid() && dict.compressMode
      ensures dict.dictionary == old(dict.dictionary) && dict.indirection == old(dict.indirection)
      ensures var s := EncStep(Java, ResetThenWrite, old(Enc(dict.AsTable(), previousCodeword, codeSize)), old(input[0]));
        Enc(dict.AsTable(), previousCodeword, codeSize) == s.e &&
        (s.packets == [] ==> packer.out == old(packer.out) && packer.State() == old(packer.State())) &&
        (s.packets != [] ==>
          var q := Pack(old(packer.State()), old(previousCodeword), old(codeSize));
          packer.out == old(packer.out) + q.out && packer.State() == q.st)
      ensures previousCodeword != NullCw && matchLengthSoFar > 0
      ensures opBytecount == old(opBytecount) + |packer.out| - |old(packer.out)|
    {
      ghost var e := Enc(dict.AsTable(), previousCodeword, codeSize);
      var ipbyte := input[0];
      input := input[1..];
      ipBytecount := ipBytecount + 1;
      if previousCodeword == NullCw {
        previousCodeword := ipbyte;
        matchLengthSoFar := 1;
        StepFirst(Java, ResetThenWrite, e, ipbyte);
      } else {
        matchAddr := dict.EntryMatch(previousCodeword, ipbyte);
        if matchAddr != NoMatch {
          matchLengthSoFar := matchLengthSoFar + 1;
          previousCodeword := matchAddr;
          StepMatch(Java, ResetThenWrite, e, ipbyte, matchAddr);
        } else {
          var n := packer.Pack(previousCodeword, codeSize);
          opBytecount := opBytecount + n;
          codeSize := dict.BuildEntry(previousCodeword, ipbyte);
          previousCodeword := ipbyte;
          matchLengthSoFar := 1;
          StepMismatch(Java, ResetThenWrite, e, ipbyte, dict.AsTable());
        }
      }
    }

    /**
     * The end of compress: the string pending at end of input, if any, goes
     * to the packer, and then the end-of-stream sentinel, which flushes the
     * packer. Whatever dictionary `t` the loop left, this writes the tail of
     * the compressed stream.
     */
    method PackPending(packer: Packer, ghost t: Table)
      requires EncOk(Java, Enc(t, previousCodeword, codeSize)) && packer.residue >= 0
      modifies this`previousCodeword, this`matchLengthSoFar, this`opBytecount, packer
      ensures packer.out == old(packer.out) + Tail(Java, Enc(t, old(previousCodeword), old(codeSize)), old(packer.State()))
      ensures previousCodeword == NullCw
      ensures matchLengthSoFar == if old(previousCodeword) != NullCw then 0 else old(matchLengthSoFar)
      ensures opBytecount == old(opBytecount) + |packer.out| - |old(packer.out)|
    {
      ghost var e := Enc(t, previousCodeword, codeSize);
      ghost var out := packer.out;
      ghost var st := packer.State();
      if previousCodeword != NullCw {
        var n := packer.Pack(previousCodeword, codeSize);
        opBytecount := opBytecount + n;
        previousCodeword := NullCw;
        matchLengthSoFar := 0;
        ghost var q := Pack(st, e.prev, e.size);
        SeqAssoc(out, q.out, Pack(q.st, EofFlush, e.size).out);
      }
      var n := packer.Pack(EofFlush, codeSize);
      opBytecount := opBytecount + n;
    }

    /**
     * compress: reset the dictionary, run the byte loop, pack the string
     * pending at end of input and then the end-of-stream sentinel. From a
     * packer with nothing pending, the bytes written are Lzw.Compress of
     * the input, and the dictionary ends as the compressor's loop leaves it.
     */
    method Compress(dict: Dict, packer: Packer)
      requires dict.Valid() && dict.compressMode
      requires packer.State() == PackStart
      modifies this, dict, dict.dictionary, dict.indirection, packer
      ensures packer.out == old(packer.out) + Lzw.Compress(Java, ResetThenWrite, old(dict.AsTable()), old(input))
      ensures dict.Valid() && dict.AsTable() == EncFrom(Java, ResetThenWrite, EncStart(Java, old(dict.AsTable())), old(input)).e.t
      ensures input == [] && previousCodeword == NullCw && matchLengthSoFar == 0
      ensures ipBytecount == old(ipBytecount) + |old(input)|
      ensures opBytecount == old(opBytecount) + |packer.out| - |old(packer.out)|
    {
      ghost var x := input;
      ghost var e0 := EncStart(Java, dict.AsTable());
      ghost var st := packer.State();
      ghost var goal := packer.out + Rest(Java, ResetThenWrite, e0, st, x);
      ghost var final := EncFrom(Java, ResetThenWrite, e0, x).e;
      RestIsCompress(Java, ResetThenWrite, dict.AsTable(), st, x);
      previousCodeword := NullCw;
      matchLengthSoFar := 0;
      codeSize := dict.ResetDictionary();
      ghost var e := e0;
      while input != []
        invariant dict.Valid() && dict.compressMode
        invariant dict.dictionary == old(dict.dictionary) && dict.indirection == old(dict.indirection)
        invariant dict.AsTable() == e.t && previousCodeword == e.prev && codeSize == e.size && packer.State() == st
        invariant Midway(Java, ResetThenWrite, e, st, input, packer.out, goal, final)
        invariant matchLengthSoFar >= 0 && (previousCodeword == NullCw ==> matchLengthSoFar == 0)
        invariant ipBytecount == old(ipBytecount) + |x| - |input|
        invariant opBytecount == old(opBytecount) + |packer.out| - |old(packer.out)|
        decreases |input|
      {
        ghost var out := packer.out;
        ghost var y := input;
        CompressByte(dict, packer);
        ghost var s := EncStep(Java, ResetThenWrite, e, y[0]);
        if s.packets == [] {
          MidwayQuiet(Java, ResetThenWrite, e, st, y, out, goal, final, s.e);
        } else {
          MidwayEmit(Java, ResetThenWrite, e, st, y, out, goal, final, s.e, Pack(st, e.prev, e.size));
        }
        e := s.e;
        st := packer.State();
      }
      ghost var out := packer.out;
      PackPending(packer, e.t);
      MidwayDone(Java, ResetThenWrite, e, st, out, goal, final);
    }
  }

}
