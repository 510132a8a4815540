/*
 * java/codec/Decomp.java: the decompressor object. Its loop asks the
 * unpacker for codewords, walks each one's chain through the dictionary
 * onto a stack, pops the stack to the output, and builds the entry the
 * compressor built one codeword earlier. It is proved to write exactly the
 * bytes of Lzw.DecodeFrom and to end as it does.
 */
module JavaDecomp {
  import opened BitString
  import opened LzConsts
  import opened LzTable
  import opened Packing
  import opened Lzw
  import opened JavaDict
  import opened JavaUnpacker
  import opened JavaIntRef
  import opened DecodeLoops

  class Decomp {
    var maxStringLength: nat
    var previousCodeword: nat
    var codeSize: int
    var ipBytecount: int
    var opBytecount: int
    var lastWordLength: int
    var stringTerminatorByte: Byte
    /** The bytes written to the output stream. */
    var out: seq<Byte>
    var ipCodeword: IntRef
    /** The stack of bytes, its top last. */
    var stack: seq<Byte>

    /** The decompressor as the specification's decoder state. */
    ghost function State(dict: Dict, unpacker: Unpacker): Dec
      reads this, ipCodeword, dict, dict.dictionary, unpacker
    {
      Dec(dict.AsTable(), previousCodeword, stringTerminatorByte, codeSize, ipCodeword.value, unpacker.State())
    }

    /** Decomp(): the default maximum string length, writing to standard output. */
    constructor Default()
      ensures maxStringLength == MaxWordLength
      ensures previousCodeword == NullCw && codeSize == MinCwLen && stringTerminatorByte == 0
      ensures ipBytecount == 0 && opBytecount == 0 && out == [] && stack == []
      ensures fresh(ipCodeword) && ipCodeword.value == 0
    {
      maxStringLength := MaxWordLength;
      previousCodeword := NullCw;
      codeSize := MinCwLen;
      ipBytecount := 0;
      opBytecount := 0;
      lastWordLength := 0;
      stringTerminatorByte := 0;
      out := [];
      ipCodeword := new IntRef(0);
      stack := [];
    }

    /** Decomp(maxstr, ofp): a configured maximum string length. */
    constructor (maxstr: nat)
      ensures maxStringLength == maxstr
      ensures previousCodeword == NullCw && codeSize == MinCwLen && stringTerminatorByte == 0
      ensures ipBytecount == 0 && opBytecount == 0 && out == [] && stack == []
      ensures fresh(ipCodeword) && ipCodeword.value == 0
    {
      maxStringLength := maxstr;
      previousCodeword := NullCw;
      codeSize := MinCwLen;
      ipBytecount := 0;
      opBytecount := 0;
      lastWordLength := 0;
      stringTerminatorByte := 0;
      out := [];
      ipCodeword := new IntRef(0);
      stack := [];
    }

    /**
     * output_linked_list: follow the chain from the codeword just read,
     * pushing each byte, and then pop the stack to the output. A chain
     * longer than the maximum string length sets the error flag and returns
     * 0 with nothing written; reading past the dictionary array is the
     * out-of-bounds failure (`crashed`). Otherwise the string is written
     * and the byte returned is the last one pushed, the string's first.
     */
    method OutputLinkedList(dict: Dict) returns (byteVal: Byte, errflag: int, crashed: bool)
      requires dict.Valid() && stack == [] && ipCodeword.value != NullCw
      modifies this`stack, this`out, this`opBytecount, this`lastWordLength
      ensures var w := Walk(Java, dict.AsTable(), previousCodeword, stringTerminatorByte, ipCodeword.value, 0, [], maxStringLength);
        crashed == w.Unreadable? &&
        (w.Unreadable? ==> out == old(out)) &&
        (w.Overflow? ==> errflag == DecompressionError && byteVal == 0 && out == old(out)) &&
        (w.Walked? ==> errflag == 0 && byteVal == w.last && out == old(out) + w.bytes && stack == [] &&
                       lastWordLength == |w.bytes|)
      ensures opBytecount == old(opBytecount) + |out| - |old(out)|
    {
      errflag := 0;
      byteVal := 0;
      crashed := false;
      var pointer: nat := ipCodeword.value;
      ghost var t := dict.AsTable();
      ghost var w := Walk(Java, t, previousCodeword, stringTerminatorByte, pointer, 0, [], maxStringLength);
      while pointer != NullCw
        invariant |stack| <= maxStringLength
        invariant Walk(Java, t, previousCodeword, stringTerminatorByte, pointer, byteVal, stack, maxStringLength) == w
        invariant stack == [] ==> pointer == ipCodeword.value
        invariant out == old(out) && opBytecount == old(opBytecount)
        decreases maxStringLength - |stack|
      {
        if !dict.RootCodeword(pointer) {
          if dict.IsNextFreeEntry(pointer) && previousCodeword != NullCw {
            // The KwK case: the entry the compressor has just built.
            byteVal := stringTerminatorByte;
            pointer := previousCodeword;
          } else {
            if pointer >= dict.dictionary.Length {
              crashed := true;
              return;
            }
            byteVal := dict.DictionaryEntryByte(pointer);
            pointer := dict.DictionaryEntryPointer(pointer);
          }
        } else {
          byteVal := pointer;
          pointer := NullCw;
        }
        if |stack| == maxStringLength {
          errflag := DecompressionError;
          byteVal := 0;
          return;
        }
        stack := stack + [byteVal];
      }
      lastWordLength := |stack|;
      ghost var s0 := stack;
      // The source's do-while: the stack holds at least the codeword's own byte.
      while stack != []
        invariant out + Reverse(stack) == old(out) + Reverse(s0) && lastWordLength == |s0|
        invariant opBytecount == old(opBytecount) + |out| - |old(out)|
        decreases |stack|
      {
        var popVal := stack[|stack| - 1];
        ReverseLast(stack);
        SeqAssoc(out, [popVal], Reverse(stack[..|stack| - 1]));
        stack := stack[..|stack| - 1];
        out := out + [popVal];
        opBytecount := opBytecount + 1;
      }
    }

    /**
     * The rest of a pass of decompress's loop, once unpack has read a
     * codeword: reject a codeword beyond the next free address; expand it;
     * from the second codeword on, build the entry of the previous codeword
     * and the string's first byte. With `d` the decoder state before the
     * unpack call and `u` that call's result, this completes the
     * specification's decoder step.
     */
    method ExpandCodeword(dict: Dict, unpacker: Unpacker, ghost d: Dec, ghost input: seq<Byte>, ghost u: Unpacked)
        returns (stop: bool, end: Ending)
      requires dict.Valid() && !dict.compressMode && stack == []
      requires DecOk(Java, d) && u == UnpackFor(Java, d.ust, input, d.size) && u.count != 0
      requires d.t == dict.AsTable() && d.prev == previousCodeword && d.term == stringTerminatorByte
      requires d.size == codeSize && ipCodeword.value == Received(Java, d, u)
      modifies this, dict, dict.dictionary, dict.indirection
      ensures dict.Valid() && !dict.compressMode && (!stop ==> stack == [])
      ensures dict.dictionary == old(dict.dictionary) && dict.indirection == old(dict.indirection)
      ensures ipCodeword == old(ipCodeword) && maxStringLength == old(maxStringLength)
      ensures var s := DecodeStep(Java, ResetThenWrite, maxStringLength, d, input);
        stop == s.Stop? &&
        (s.Stop? ==> end == s.end && out == old(out)) &&
        (s.Emit? ==>
          dict.AsTable() == s.d.t && previousCodeword == s.d.prev && stringTerminatorByte == s.d.term &&
          codeSize == s.d.size && ipCodeword.value == s.d.held && u.st == s.d.ust &&
          u.rest == s.rest && out == old(out) + s.bytes)
    {
      end := Finished;
      if !dict.CodewordValid(ipCodeword.value) {
        StepUnknown(Java, ResetThenWrite, maxStringLength, d, input, u);
        return true, Failed(DecompressionError);
      }
      ghost var w := Walk(Java, d.t, d.prev, d.term, ipCodeword.value, 0, [], maxStringLength);
      StepWalkFails(Java, ResetThenWrite, maxStringLength, d, input, u, ipCodeword.value, maxStringLength, w);
      var b, status, crashed := OutputLinkedList(dict);
      if crashed {
        return true, Crashed;
      }
      stringTerminatorByte := b;
      if status != 0 {
        return true, Failed(status);
      }
      if previousCodeword != NullCw {
        codeSize := dict.BuildEntry(previousCodeword, stringTerminatorByte);
      }
      previousCodeword := ipCodeword.value;
      StepWalkEmits(Java, ResetThenWrite, maxStringLength, d, input, u, previousCodeword, maxStringLength, w, dict.AsTable(), codeSize);
      stop := false;
    }

    /**
     * One pass of decompress's loop: unpack a codeword with the current
     * width, stop if unpack read nothing, and otherwise expand it. This is
     * one step of the specification's decoder: it stops exactly when the
     * step stops, with the same ending, and otherwise writes the step's
     * bytes and leaves the step's next state.
     */
    method DecompressCodeword(dict: Dict, unpacker: Unpacker) returns (stop: bool, end: Ending)
      requires dict.Valid() && !dict.compressMode && stack == []
      requires MinCwLen <= codeSize <= MaxCwLen
      modifies this, ipCodeword, dict, dict.dictionary, dict.indirection, unpacker
      ensures dict.Valid() && !dict.compressMode && (!stop ==> stack == [])
      ensures dict.dictionary == old(dict.dictionary) && dict.indirection == old(dict.indirection)
      ensures ipCodeword == old(ipCodeword) && maxStringLength == old(maxStringLength)
      ensures var s := DecodeStep(Java, ResetThenWrite, maxStringLength, old(State(dict, unpacker)), old(unpacker.input));
        stop == s.Stop? &&
        (s.Stop? ==> end == s.end && out == old(out)) &&
        (s.Emit? ==>
          dict.AsTable() == s.d.t && previousCodeword == s.d.prev && stringTerminatorByte == s.d.term &&
          codeSize == s.d.size && ipCodeword.value == s.d.held && unpacker.State() == s.d.ust &&
          unpacker.input == s.rest && out == old(out) + s.bytes)
    {
      ghost var d := State(dict, unpacker);
      ghost var input := unpacker.input;
      ghost var u := UnpackJava(d.ust, input, d.size);
      var byteCount := unpacker.Unpack(ipCodeword, codeSize);
      if byteCount == 0 {
        StepDry(Java, ResetThenWrite, maxStringLength, d, input, u);
        return true, Finished;
      }
      ipBytecount := ipBytecount + byteCount;
      stop, end := ExpandCodeword(dict, unpacker, d, input, u);
    }

    /**
     * decompress: run the loop until a pass stops it. The bytes written
     * and the way it ends (Finished for a return of NOERROR, Failed for
     * DECOMPRESSION_ERROR, Crashed for an exception) are those of the
     * specification's decoder from the same state.
     */
    method Decompress(dict: Dict, unpacker: Unpacker) returns (end: Ending)
      requires dict.Valid() && !dict.compressMode && stack == []
      requires MinCwLen <= codeSize <= MaxCwLen
      modifies this, ipCodeword, dict, dict.dictionary, dict.indirection, unpacker
      ensures var r := DecodeFrom(Java, ResetThenWrite, maxStringLength, old(State(dict, unpacker)), old(unpacker.input));
        end == r.end && out == old(out) + r.out
    {
      ghost var d := State(dict, unpacker);
      ghost var r0 := DecodeFrom(Java, ResetThenWrite, maxStringLength, d, unpacker.input);
      ghost var goal := Decoded(r0.end, out + r0.out);
      while true
        invariant dict.Valid() && !dict.compressMode && stack == []
        invariant dict.dictionary == old(dict.dictionary) && dict.indirection == old(dict.indirection)
        invariant ipCodeword == old(ipCodeword) && maxStringLength == old(maxStringLength)
        invariant d.t == dict.AsTable() && d.prev == previousCodeword && d.term == stringTerminatorByte
        invariant d.size == codeSize && d.held == ipCodeword.value && d.ust == unpacker.State()
        invariant Underway(Java, ResetThenWrite, maxStringLength, d, unpacker.input, out, goal)
        decreases |unpacker.input|
      {
        ghost var input := unpacker.input;
        ghost var out0 := out;
        var stop;
        stop, end := DecompressCodeword(dict, unpacker);
        ghost var s := DecodeStep(Java, ResetThenWrite, maxStringLength, d, input);
        if stop {
          UnderwayStop(Java, ResetThenWrite, maxStringLength, d, input, out0, goal, end);
          return;
        }
        UnderwayEmit(Java, ResetThenWrite, maxStringLength, d, input, out0, goal, s.bytes, s.d, s.rest);
        d := s.d;
      }
    }
  }
}
