/*
 * python/Decompress.py: the decompressor object. Its loop asks the
 * unpacker for codewords, walks each one's chain through the dictionary
 * onto the stack, pops the stack to the output, and builds the entry the
 * compressor built one codeword earlier. It is proved to write exactly
 * the bytes of Lzw.DecodeFrom for the Python variant and to end as it
 * does.
 *
 * The Python class inherits Stack; here the stack is a component object
 * (`stk`) whose methods the decompressor calls.
 */
module PyDecompress {
  import opened BitString
  import opened LzConsts
  import opened LzTable
  import opened Packing
  import opened Lzw
  import opened PyDictionary
  import opened PyUnpacker
  import opened PyStack
  import opened DecodeLoops

  class Decompress {
    var maxStringLength: nat
    /** The bytes written to the output stream. */
    var out: seq<Byte>
    var errflag: int
    /** The inherited stack. */
    var stk: Stack

    /** Decompress(ofp, maxstr): a maximum string length of 0 selects MAXWORDLENGTH; the stack starts empty. */
    constructor (maxstr: nat)
      ensures maxStringLength == if maxstr == 0 then MaxWordLength else maxstr
      ensures out == [] && errflag == 0 && fresh(stk) && stk.Valid() && stk.stack == []
    {
      if maxstr == 0 {
        maxStringLength := MaxWordLength;
      } else {
        maxStringLength := maxstr;
      }
      out := [];
      errflag := 0;
      stk := new Stack();
    }

    /**
     * __output_linked_list: follow the chain from the codeword just read,
     * pushing each byte: a root pushes itself and ends the chain, the next
     * free address after the first codeword is the KwK case (the
     * terminator byte, then the previous codeword), anything else is read
     * from the dictionary, where an address with no key raises KeyError
     * (`crashed`). A push onto a stack already holding the maximum string
     * length sets the error flag and returns 0 with nothing written.
     * Otherwise the stack is popped to the output and the byte returned is
     * the last one pushed, the string's first.
     */
    method OutputLinkedList(dict: Dictionary, ipCodeword: nat, stringTerminatorByte: Byte, previousCodeword: nat)
        returns (byteVal: Byte, status: int, crashed: bool)
      requires dict.Valid() && !dict.compressMode && stk.Valid() && stk.stack == [] && ipCodeword != NullCw
      modifies this`out, this`errflag, stk
      ensures stk.Valid()
      ensures var w := Walk(Python, dict.AsTable(), previousCodeword, stringTerminatorByte, ipCodeword, 0, [], maxStringLength);
        crashed == w.Unreadable? &&
        (w.Unreadable? ==> out == old(out)) &&
        (w.Overflow? ==> status == DecompressionError && errflag == DecompressionError && byteVal == 0 && out == old(out)) &&
        (w.Walked? ==> status == NoError && byteVal == w.last && out == old(out) + w.bytes && stk.stack == [])
    {
      errflag := 0;
      byteVal := 0;
      status := NoError;
      crashed := false;
      var pointer: int := ipCodeword;
      ghost var t := dict.AsTable();
      ghost var w := Walk(Python, t, previousCodeword, stringTerminatorByte, ipCodeword, 0, [], maxStringLength);
      ghost var ws: seq<Byte> := [];
      while pointer != NullCw
        invariant stk.Valid() && stk.stack == ws && |ws| <= maxStringLength && pointer >= 0
        invariant Walk(Python, t, previousCodeword, stringTerminatorByte, pointer, byteVal, ws, maxStringLength) == w
        invariant out == old(out) && errflag == 0
        decreases maxStringLength - |ws|
      {
        if !dict.RootCodeword(pointer) {
          if dict.IsNextFreeEntry(pointer) && previousCodeword != NullCw {
            // The KwK case: the entry the compressor has just built.
            byteVal := stringTerminatorByte;
            pointer := previousCodeword;
          } else {
            if pointer !in dict.cells {
              // The dictionary lookup raises KeyError.
              crashed := true;
              return;
            }
            byteVal := dict.DictionaryEntryByte(pointer);
            pointer := dict.DictionaryEntryPointer(pointer);
          }
        } else {
          byteVal := pointer;
          pointer := NullCw;
        }
        if stk.StackSize() == maxStringLength {
          errflag := DecompressionError;
          return 0, errflag, false;
        }
        stk.Push(byteVal);
        ws := ws + [byteVal];
      }
      ghost var s0 := ws;
      while !stk.StackEmpty()
        invariant stk.Valid() && stk.stack == ws
        invariant out + Reverse(ws) == old(out) + Reverse(s0)
        decreases |ws|
      {
        var v := stk.Pop();
        ReverseLast(ws);
        SeqAssoc(out, [v % 256], Reverse(ws[..|ws| - 1]));
        ws := ws[..|ws| - 1];
        out := out + [v % 256];
      }
    }

    /**
     * decompress: unpack a codeword with the current width and go on
     * while unpack read at least one byte; reject a codeword beyond the
     * next free address; expand it; from the second codeword on, build the
     * entry of the previous codeword and the string's first byte. The
     * bytes written and the way it ends (Finished for a return of NOERROR,
     * Failed for DECOMPRESSION_ERROR, Crashed for a KeyError) are those of
     * the specification's decoder started from this dictionary and
     * unpacker.
     */
    method Decompress(dict: Dictionary, unpacker: Unpacker) returns (end: Ending)
      requires dict.Valid() && !dict.compressMode && stk.Valid() && stk.stack == []
      modifies this`out, this`errflag, stk, dict, unpacker
      ensures var r := DecodeFrom(Python, ResetThenWrite, maxStringLength,
                                  Dec(old(dict.AsTable()), NullCw, 0, MinCwLen, 0, old(unpacker.State())), old(unpacker.input));
        end == r.end && out == old(out) + r.out
    {
      var status := NoError;
      var codeSize := MinCwLen;
      var stringTerminatorByte: Byte := 0;
      var previousCodeword: nat := NullCw;
      ghost var d := Dec(dict.AsTable(), NullCw, 0, MinCwLen, 0, unpacker.State());
      ghost var input := unpacker.input;
      ghost var r0 := DecodeFrom(Python, ResetThenWrite, maxStringLength, d, input);
      ghost var goal := Decoded(r0.end, out + r0.out);
      var byteCount, ipCodeword := unpacker.Unpack(codeSize);
      ghost var u := Unpack(d.ust, input, d.size);
      while byteCount != 0
        invariant dict.Valid() && !dict.compressMode && stk.Valid() && stk.stack == []
        invariant DecOk(Python, d)
        invariant d.t == dict.AsTable() && d.prev == previousCodeword && d.term == stringTerminatorByte && d.size == codeSize
        invariant u == Unpack(d.ust, input, d.size) && byteCount == u.count && ipCodeword == Received(Python, d, u)
        invariant unpacker.State() == u.st && unpacker.input == u.rest
        invariant Underway(Python, ResetThenWrite, maxStringLength, d, input, out, goal)
        decreases |unpacker.input| + byteCount
      {
        ghost var out0 := out;
        if dict.CodewordValid(ipCodeword) {
          ghost var w := Walk(Python, d.t, d.prev, d.term, ipCodeword, 0, [], maxStringLength);
          StepWalkFails(Python, ResetThenWrite, maxStringLength, d, input, u, ipCodeword, maxStringLength, w);
          var crashed;
          stringTerminatorByte, status, crashed := OutputLinkedList(dict, ipCodeword, stringTerminatorByte, previousCodeword);
          if crashed {
            UnderwayStop(Python, ResetThenWrite, maxStringLength, d, input, out0, goal, Crashed);
            return Crashed;
          }
          if status != NoError {
            UnderwayStop(Python, ResetThenWrite, maxStringLength, d, input, out0, goal, Failed(status));
            return Failed(status);
          }
          if previousCodeword != NullCw {
            codeSize := dict.BuildEntry(previousCodeword, stringTerminatorByte);
          }
          StepWalkEmits(Python, ResetThenWrite, maxStringLength, d, input, u, ipCodeword, maxStringLength, w,
                        dict.AsTable(), codeSize);
        } else {
          StepUnknown(Python, ResetThenWrite, maxStringLength, d, input, u);
          UnderwayStop(Python, ResetThenWrite, maxStringLength, d, input, out0, goal, Failed(DecompressionError));
          return Failed(DecompressionError);
        }
        previousCodeword := ipCodeword;
        ghost var s := DecodeStep(Python, ResetThenWrite, maxStringLength, d, input);
        UnderwayEmit(Python, ResetThenWrite, maxStringLength, d, input, out0, goal, s.bytes, s.d, s.rest);
        d := s.d;
        input := unpacker.input;
        byteCount, ipCodeword := unpacker.Unpack(codeSize);
        u := Unpack(d.ust, input, d.size);
      }
      StepDry(Python, ResetThenWrite, maxStringLength, d, input, u);
      UnderwayStop(Python, ResetThenWrite, maxStringLength, d, input, out, goal, Finished);
      return Finished;
    }
  }
}
