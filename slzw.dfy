/*
 * slzw.c: the single-file C codec. Its state is the file's static
 * variables: the dictionary array and indirection table, the next free
 * codeword, build_entry's codeword width, pack's and unpack's barrel
 * shifters, and decompress's stack. Here they are the fields of one
 * object, and every static function is a method (or, when it only reads,
 * a function) over them, proved against the C variant of the
 * specification. The FILE streams are objects of class File: an input
 * file is the bytes getc has not yet returned, an output file the bytes
 * putc has written.
 */
module Slzw {
  import opened BitString
  import opened LzConsts
  import opened LzTable
  import opened Packing
  import opened Lzw
  import opened RoundTrip
  import opened CodecLoops
  import opened DecodeLoops

  /** getc's end-of-file value. */
  const Eof := -1

  /** Reading one byte and loading it is the first step of the unpacker's read loop. */
  lemma FillStep(st: UnpackState, input: seq<Byte>, len: nat, st': UnpackState)
    requires st.currlen < len && input != [] && st' == Load(st, input[0])
    ensures Fill(st, input, len) == Fill(st', input[1..], len).(count := Fill(st', input[1..], len).count + 1)
  {
  }

  /** A stdio stream: the bytes still to be read, or the bytes written so far. */
  class File {
    var data: seq<Byte>

    constructor (contents: seq<Byte>)
      ensures data == contents
    {
      data := contents;
    }

    /** getc: the next byte, or EOF once the file is exhausted. */
    method Getc() returns (ipbyte: int)
      modifies this
      ensures old(data) == [] ==> ipbyte == Eof && data == []
      ensures old(data) != [] ==> ipbyte == old(data)[0] && data == old(data)[1..]
    {
      if data == [] {
        ipbyte := Eof;
      } else {
        ipbyte := data[0];
        data := data[1..];
      }
    }

    /** putc: the byte is appended to the file. */
    method Putc(b: Byte)
      modifies this
      ensures data == old(data) + [b]
    {
      data := data + [b];
    }
  }

  /** A pass of compress's loop keeps the loop invariant, whether or not it packs a codeword. */
  lemma MidwayByte(e: Enc, st: PackState, y: seq<Byte>, out: seq<Byte>, goal: seq<Byte>, final: Enc,
                   st': PackState, out': seq<Byte>)
    requires Midway(C, ResetOnly, e, st, y, out, goal, final) && y != []
    requires var s := EncStep(C, ResetOnly, e, y[0]);
      (s.packets == [] ==> out' == out && st' == st) &&
      (s.packets != [] ==> var q := Packing.Pack(st, e.prev, e.size); out' == out + q.out && st' == q.st)
    ensures Midway(C, ResetOnly, EncStep(C, ResetOnly, e, y[0]).e, st', y[1..], out', goal, final)
  {
    var s := EncStep(C, ResetOnly, e, y[0]);
    if s.packets == [] {
      MidwayQuiet(C, ResetOnly, e, st, y, out, goal, final, s.e);
    } else {
      MidwayEmit(C, ResetOnly, e, st, y, out, goal, final, s.e, Packing.Pack(st, e.prev, e.size));
    }
  }

  class Statics {
    var dictionary: array<Entry>
    var indirectionTable: array2<int>
    var nextAvailableCodeword: int
    /** build_entry's static codeword_len. */
    var codewordLen: int
    /** pack's static barrel and residue. */
    var packBarrel: nat
    var packResidue: int
    /** unpack's static residue and barrel. */
    var unpackResidue: nat
    var unpackBarrel: nat
    /** decompress's static stack and stack pointer. */
    var stack: array<Byte>
    var stackPointer: int

    /** The indirection table as the map the specification uses. */
    ghost var index: map<(int, int), int>

    /** The dictionary as a value. */
    ghost function AsTable(): Table
      reads this, dictionary
    {
      Table(dictionary[..], index, nextAvailableCodeword, codewordLen)
    }

    ghost function PackerState(): PackState
      reads this
    {
      PackState(packBarrel, packResidue)
    }

    ghost function UnpackerState(): UnpackState
      reads this
    {
      UnpackState(unpackBarrel, unpackResidue)
    }

    /** The arrays have their declared sizes and the indirection table is the map. */
    ghost predicate Valid()
      reads this, dictionary, indirectionTable
    {
      dictionary.Length == DictFull && indirectionTable.Length0 == DictFull && indirectionTable.Length1 == 256 &&
      stack.Length == DictFull && 0 <= stackPointer &&
      Sized(AsTable()) &&
      forall p: int, b: Byte :: 0 <= p < DictFull ==> indirectionTable[p, b] == IndexOf(index, p, b)
    }

    /** The statics at program start: zero-filled arrays, next free codeword 256, width 9, empty barrels. */
    constructor ()
      ensures Valid() && stackPointer == 0
      ensures AsTable() == Table(seq(DictFull, _ => Entry(0, 0)), map[], FirstCw, MinCwLen)
      ensures PackerState() == PackStart && UnpackerState() == UnpackStart
    {
      dictionary := new Entry[DictFull](_ => Entry(0, 0));
      indirectionTable := new int[DictFull, 256]((_, _) => 0);
      nextAvailableCodeword := FirstCw;
      codewordLen := MinCwLen;
      packBarrel := 0;
      packResidue := 0;
      unpackResidue := 0;
      unpackBarrel := 0;
      stack := new Byte[DictFull](_ => 0);
      stackPointer := 0;
      index := map[];
    }

    /**
     * entry_match: the address the indirection table proposes for
     * (pointer, b), if it is live and holds exactly that pair.
     */
    function EntryMatch(pointer: int, b: Byte): (addr: int)
      reads this, dictionary, indirectionTable
      requires Valid() && 0 <= pointer < DictFull
      ensures addr == Match(AsTable(), pointer, b)
    {
      var addr := indirectionTable[pointer, b];
      if addr < FirstCw || addr >= nextAvailableCodeword then NoMatch
      else if dictionary[addr].byteVal == b && dictionary[addr].pointer == pointer then addr
      else NoMatch
    }

    /**
     * build_entry: on a full dictionary only reset (next free codeword
     * 256, width 9) and return; otherwise write (codeword, b) at the next
     * free address, point the indirection table at it when compressing,
     * apply the width rule and advance. The new dictionary is the
     * specification's build under the reset-only policy.
     */
    method BuildEntry(codeword: nat, b: Byte, compressMode: bool) returns (len: int)
      requires Valid() && (compressMode ==> codeword < DictFull)
      modifies this`nextAvailableCodeword, this`codewordLen, this`index, dictionary, indirectionTable
      ensures Valid() && len == codewordLen
      ensures AsTable() == Build(old(AsTable()), if compressMode then Compressing else Decompressing, ResetOnly, codeword, b)
    {
      if nextAvailableCodeword == DictFull {
        nextAvailableCodeword := FirstCw;
        codewordLen := MinCwLen;
        return codewordLen;
      }
      ghost var t0 := AsTable();
      dictionary[nextAvailableCodeword] := Entry(codeword, b);
      if compressMode {
        indirectionTable[codeword, b] := nextAvailableCodeword;
        index := index[(codeword, b) := nextAvailableCodeword];
      }
      if codewordLen < MaxCwLen {
        if nextAvailableCodeword == Shl1(codewordLen) - (if !compressMode then 1 else 0) {
          codewordLen := codewordLen + 1;
        }
      } else if !compressMode && nextAvailableCodeword == DictFull - 1 {
        codewordLen := MinCwLen;
      }
      nextAvailableCodeword := nextAvailableCodeword + 1;
      len := codewordLen;
      assert AsTable() == Write(t0, if compressMode then Compressing else Decompressing, codeword, b);
    }

    /**
     * pack: OR the codeword, masked to 12 bits, in above the residue, add
     * its width, and write the barrel's low byte while at least a byte (a
     * bit, when flushing) is pending.
     */
    method Pack(ipCodeword: nat, codelen: nat, flush: bool, ofp: File)
      requires packResidue >= 0
      modifies this`packBarrel, this`packResidue, ofp
      ensures var r := PackC(old(PackerState()), ipCodeword, codelen, flush);
        PackerState() == r.st && ofp.data == old(ofp.data) + r.out
    {
      packBarrel := ShiftIn(packBarrel, LowBits(ipCodeword, MaxCwLen), packResidue);
      packResidue := packResidue + codelen;
      ghost var threshold := if flush then BitSize else ByteSize;
      ghost var goal := Drain(packBarrel, packResidue, threshold);
      ghost var out0 := ofp.data;
      while packResidue >= (if flush then BitSize else ByteSize)
        invariant Drain(packBarrel, packResidue, threshold).st == goal.st
        invariant ofp.data + Drain(packBarrel, packResidue, threshold).out == out0 + goal.out
        decreases packResidue
      {
        ghost var rest := Drain(packBarrel / 256, packResidue - 8, threshold);
        assert ofp.data + Drain(packBarrel, packResidue, threshold).out == (ofp.data + [packBarrel % 256]) + rest.out;
        ofp.Putc(packBarrel % 256);
        packBarrel := packBarrel / 256;
        packResidue := packResidue - ByteSize;
      }
    }

    /**
     * One pass of compress's loop (its body, factored out): the first byte
     * starts the string; a byte the dictionary holds extends it; any other
     * byte packs the string's codeword, enters the extension and starts a
     * new string. This is the encoder's step, and the output file gets the
     * step's packet, if any.
     */
    method CompressByte(ipbyte: Byte, previousCodeword: nat, codeSize: int, ofp: File)
      returns (previousCodeword': nat, codeSize': int)
      requires Valid() && packResidue >= 0 && EncOk(C, Enc(AsTable(), previousCodeword, codeSize))
      modifies this`nextAvailableCodeword, this`codewordLen, this`index, this`packBarrel, this`packResidue
      modifies dictionary, indirectionTable, ofp
      ensures Valid() && packResidue >= 0
      ensures var s := EncStep(C, ResetOnly, Enc(old(AsTable()), previousCodeword, codeSize), ipbyte);
        AsTable() == s.e.t && previousCodeword' == s.e.prev && codeSize' == s.e.size &&
        (s.packets == [] ==> ofp.data == old(ofp.data) && PackerState() == old(PackerState())) &&
        (s.packets != [] ==>
          var q := Packing.Pack(old(PackerState()), previousCodeword, codeSize);
          ofp.data == old(ofp.data) + q.out && PackerState() == q.st)
    {
      ghost var e := Enc(AsTable(), previousCodeword, codeSize);
      previousCodeword', codeSize' := previousCodeword, codeSize;
      if previousCodeword == CNullCw {
        previousCodeword' := ipbyte;
        StepFirst(C, ResetOnly, e, ipbyte);
      } else {
        var matchAddr := EntryMatch(previousCodeword, ipbyte);
        if matchAddr == NoMatch {
          PackCAgrees(PackerState(), previousCodeword, codeSize);
          Pack(previousCodeword, codeSize, false, ofp);
          codeSize' := BuildEntry(previousCodeword, ipbyte, true);
          previousCodeword' := ipbyte;
          StepMismatch(C, ResetOnly, e, ipbyte, AsTable());
        } else {
          previousCodeword' := matchAddr;
          StepMatch(C, ResetOnly, e, ipbyte, matchAddr);
        }
      }
    }

    /**
     * compress: run the encoder over every byte getc returns, then pack
     * the pending codeword with a flush, whatever it is. From a packer with
     * nothing pending, the bytes written are Lzw.Compress of the input for
     * the C variant, and the dictionary ends as the encoder leaves it.
     */
    method Compress(ifp: File, ofp: File)
      requires Valid() && PackerState() == PackStart && ifp != ofp
      modifies this`nextAvailableCodeword, this`codewordLen, this`index, this`packBarrel, this`packResidue
      modifies dictionary, indirectionTable, ifp, ofp
      ensures ofp.data == old(ofp.data) + Lzw.Compress(C, ResetOnly, old(AsTable()), old(ifp.data))
      ensures Valid() && AsTable() == EncFrom(C, ResetOnly, EncStart(C, old(AsTable())), old(ifp.data)).e.t
      ensures ifp.data == []
    {
      ghost var x := ifp.data;
      ghost var e := EncStart(C, AsTable());
      ghost var st := PackerState();
      ghost var goal := ofp.data + Rest(C, ResetOnly, e, st, x);
      ghost var final := EncFrom(C, ResetOnly, e, x).e;
      ghost var t0 := AsTable();
      var previousCodeword: nat := CNullCw;
      var codeSize := MinCwLen;
      while true
        invariant Valid()
        invariant dictionary[..] == e.t.entries && index == e.t.index
        invariant nextAvailableCodeword == e.t.next && codewordLen == e.t.len
        invariant previousCodeword == e.prev && codeSize == e.size && packBarrel == st.barrel && packResidue == st.residue
        invariant Midway(C, ResetOnly, e, st, ifp.data, ofp.data, goal, final)
        decreases |ifp.data|
      {
        ghost var y := ifp.data;
        ghost var out0 := ofp.data;
        var ipbyte := ifp.Getc();
        if ipbyte == Eof {
          break;
        }
        ghost var s := EncStep(C, ResetOnly, e, ipbyte);
        previousCodeword, codeSize := CompressByte(ipbyte, previousCodeword, codeSize, ofp);
        MidwayByte(e, st, y, out0, goal, final, PackerState(), ofp.data);
        e := s.e;
        st := PackerState();
      }
      ghost var out0 := ofp.data;
      Pack(previousCodeword, codeSize, true, ofp);
      MidwayDone(C, ResetOnly, e, st, out0, goal, final);
      RestIsCompress(C, ResetOnly, t0, PackStart, x);
    }

    /**
     * One pass of unpack's read loop (its body, factored out): getc, and
     * unless it is end of input, OR the byte in above the residue.
     */
    method ReadByte(ifp: File) returns (ipbyte: int)
      modifies this`unpackResidue, this`unpackBarrel, ifp
      ensures old(ifp.data) == [] ==> ipbyte == Eof && ifp.data == [] && UnpackerState() == old(UnpackerState())
      ensures old(ifp.data) != [] ==>
        ipbyte == old(ifp.data)[0] && ifp.data == old(ifp.data)[1..] && UnpackerState() == Load(old(UnpackerState()), ipbyte)
    {
      ipbyte := ifp.Getc();
      if ipbyte != Eof {
        unpackBarrel := ShiftIn(unpackBarrel, ipbyte % 256, unpackResidue);
        unpackResidue := unpackResidue + ByteSize;
      }
    }

    /**
     * unpack: read bytes, ORing each in above the residue, until a whole
     * codeword is pending, then take the codeword off the barrel's low
     * bits. At end of input it returns EOF at once, leaving the codeword
     * as it was and keeping the bytes already loaded; otherwise it returns
     * the last byte read. The loop always runs at least once (with a full
     * codeword already pending, C would return an uninitialised byte).
     */
    method Unpack(codeword: nat, codelen: nat, ifp: File) returns (r: int, codeword': nat)
      requires unpackResidue < codelen
      modifies this`unpackResidue, this`unpackBarrel, ifp
      ensures var u := Packing.Unpack(old(UnpackerState()), old(ifp.data), codelen);
        UnpackerState() == u.st && ifp.data == u.rest &&
        (u.cw.None? ==> r == Eof && codeword' == codeword) &&
        (u.cw.Some? ==> 1 <= u.count && r == old(ifp.data)[u.count - 1] && codeword' == u.cw.value)
    {
      ghost var in0 := ifp.data;
      ghost var f0 := Fill(UnpackerState(), ifp.data, codelen);
      ghost var n := 0;
      var ipbyte: int := Eof;
      while unpackResidue < codelen
        invariant 0 <= n <= |in0| && ifp.data == in0[n..]
        invariant var f := Fill(UnpackerState(), ifp.data, codelen);
          f0 == f.(count := f.count + n)
        invariant n >= 1 ==> ipbyte == in0[n - 1]
        invariant n == 0 ==> unpackResidue < codelen
        decreases |ifp.data|
      {
        ghost var st := UnpackerState();
        ghost var rest := ifp.data;
        ipbyte := ReadByte(ifp);
        if ipbyte == Eof {
          return Eof, codeword;
        }
        n := n + 1;
        FillStep(st, rest, codelen, UnpackerState());
      }
      codeword' := LowBits(unpackBarrel, codelen);
      unpackResidue := unpackResidue - codelen;
      unpackBarrel := Shr(unpackBarrel, codelen);
      r := ipbyte;
    }

    /**
     * The walk of one codeword in decompress (the first loop of its body,
     * factored out): follow the chain from the codeword, pushing each
     * byte, where a root yields itself and ends the chain and the codeword
     * just past the dictionary (KwK) pushes the running byte again and
     * continues from the previous codeword. The running byte is the last
     * one of the previous walk until a push replaces it. This is the
     * specification's walk with the 4096-byte stack as its bound: the
     * stack holds the string reversed. Reading past the dictionary array or
     * pushing onto a full stack is undefined behaviour, reported as a crash.
     */
    method PushChain(ipCodeword: nat, prevCodeword: nat, byteIn: Byte) returns (byteVal: Byte, crashed: bool)
      requires Valid() && stackPointer == 0
      modifies this`stackPointer, stack
      ensures Valid() && stackPointer <= DictFull
      ensures var w := Walk(C, AsTable(), prevCodeword, byteIn, ipCodeword, byteIn, [], MaxWordLength);
        crashed == !w.Walked? &&
        (w.Walked? ==> Reverse(stack[..stackPointer]) == w.bytes && byteVal == w.last)
    {
      ghost var w := Walk(C, AsTable(), prevCodeword, byteIn, ipCodeword, byteIn, [], MaxWordLength);
      var pointer: nat := ipCodeword;
      byteVal := byteIn;
      while pointer != CNullCw
        invariant 0 <= stackPointer <= DictFull && Valid()
        invariant Walk(C, AsTable(), prevCodeword, byteIn, pointer, byteVal, stack[..stackPointer], MaxWordLength) == w
        decreases DictFull - stackPointer
      {
        ghost var ws := stack[..stackPointer];
        if pointer >= FirstCw {
          if pointer == nextAvailableCodeword && prevCodeword != CNullCw {
            pointer := prevCodeword;
          } else {
            if pointer >= DictFull {
              return byteVal, true;
            }
            byteVal := dictionary[pointer].byteVal;
            pointer := dictionary[pointer].pointer;
          }
        } else {
          byteVal := pointer;
          pointer := CNullCw;
        }
        if stackPointer == DictFull {
          return byteVal, true;
        }
        stack[stackPointer] := byteVal;
        stackPointer := stackPointer + 1;
        assert stack[..stackPointer] == ws + [byteVal];
      }
      return byteVal, false;
    }

    /**
     * The output of one codeword in decompress (the second loop of its
     * body, factored out): pop the stack to the output file, so the file
     * gets the stack's contents reversed and the stack ends empty.
     */
    method PopStack(ofp: File)
      requires 0 <= stackPointer <= stack.Length
      modifies this`stackPointer, ofp
      ensures ofp.data == old(ofp.data) + Reverse(old(stack[..stackPointer])) && stackPointer == 0
    {
      ghost var ws := stack[..stackPointer];
      while stackPointer != 0
        invariant 0 <= stackPointer <= |ws| && stack[..stackPointer] == ws[..stackPointer]
        invariant ofp.data + Reverse(ws[..stackPointer]) == old(ofp.data) + Reverse(ws)
        decreases stackPointer
      {
        ReverseLast(ws[..stackPointer]);
        assert ws[..stackPointer][..stackPointer - 1] == ws[..stackPointer - 1];
        stackPointer := stackPointer - 1;
        ofp.Putc(stack[stackPointer]);
      }
      assert ws[..0] == [];
    }

    /**
     * The expansion of a known codeword in decompress (the branch of its
     * loop body, factored out): walk and output the codeword's string,
     * and from the second codeword on build the entry of the previous
     * codeword and the walk's last byte, taking the width build_entry
     * returns; the codeword becomes the previous one.
     */
    method ExpandCodeword(ipCodeword: nat, prevCodeword: nat, codeSize: int, byteVal: Byte, ofp: File)
      returns (prevCodeword': nat, codeSize': int, byteVal': Byte, crashed: bool)
      requires Valid() && stackPointer == 0
      modifies this`nextAvailableCodeword, this`codewordLen, this`index, this`stackPointer
      modifies dictionary, indirectionTable, stack, ofp
      ensures Valid()
      ensures var w := Walk(C, old(AsTable()), prevCodeword, byteVal, ipCodeword, byteVal, [], MaxWordLength);
        crashed == !w.Walked? &&
        (crashed ==> ofp.data == old(ofp.data)) &&
        (w.Walked? ==>
          var t := if prevCodeword != CNullCw then Build(old(AsTable()), Decompressing, ResetOnly, prevCodeword, w.last)
                   else old(AsTable());
          ofp.data == old(ofp.data) + w.bytes && byteVal' == w.last && stackPointer == 0 &&
          AsTable() == t && codeSize' == (if prevCodeword != CNullCw then t.len else codeSize) &&
          prevCodeword' == ipCodeword)
    {
      prevCodeword', codeSize' := prevCodeword, codeSize;
      byteVal', crashed := PushChain(ipCodeword, prevCodeword, byteVal);
      if crashed {
        return;
      }
      PopStack(ofp);
      if prevCodeword != CNullCw {
        codeSize' := BuildEntry(prevCodeword, byteVal', false);
      }
      prevCodeword' := ipCodeword;
    }

    /**
     * One pass of decompress's loop (its body, factored out): unpack a
     * codeword and stop at end of input; stop with DECOMPRESSION_ERROR
     * on a codeword beyond the next free one; otherwise expand it. From the
     * decoder state the statics and the locals hold, this is the
     * specification's decoder step: it stops exactly when the step stops,
     * and otherwise writes the step's bytes and leaves the step's state.
     */
    method DecompressCodeword(ipCodeword: nat, prevCodeword: nat, codeSize: int, byteVal: Byte, ifp: File, ofp: File)
      returns (stop: bool, end: Ending, ipCodeword': nat, prevCodeword': nat, codeSize': int, byteVal': Byte)
      requires Valid() && stackPointer == 0 && ifp != ofp
      requires DecOk(C, Dec(AsTable(), prevCodeword, byteVal, codeSize, ipCodeword, UnpackerState()))
      modifies this`nextAvailableCodeword, this`codewordLen, this`index, this`unpackBarrel, this`unpackResidue
      modifies this`stackPointer, dictionary, indirectionTable, stack, ifp, ofp
      ensures var s := DecodeStep(C, ResetOnly, MaxWordLength,
                                  Dec(old(AsTable()), prevCodeword, byteVal, codeSize, ipCodeword, old(UnpackerState())),
                                  old(ifp.data));
        stop == s.Stop? &&
        (s.Stop? ==> end == s.end && ofp.data == old(ofp.data)) &&
        (s.Emit? ==>
          Valid() && stackPointer == 0 &&
          s.d == Dec(AsTable(), prevCodeword', byteVal', codeSize', ipCodeword', UnpackerState()) &&
          ifp.data == s.rest && ofp.data == old(ofp.data) + s.bytes)
    {
      ghost var d := Dec(AsTable(), prevCodeword, byteVal, codeSize, ipCodeword, UnpackerState());
      ghost var input := ifp.data;
      ghost var u := Packing.Unpack(d.ust, input, d.size);
      UnpackKeepsClean(d.ust, input, d.size);
      prevCodeword', codeSize', byteVal' := prevCodeword, codeSize, byteVal;
      var r;
      r, ipCodeword' := Unpack(ipCodeword, codeSize, ifp);
      if r == Eof {
        StepDry(C, ResetOnly, MaxWordLength, d, input, u);
        return true, Finished, ipCodeword', prevCodeword', codeSize', byteVal';
      }
      if ipCodeword' > nextAvailableCodeword {
        StepUnknown(C, ResetOnly, MaxWordLength, d, input, u);
        return true, Failed(DecompressionError), ipCodeword', prevCodeword', codeSize', byteVal';
      }
      var crashed;
      ghost var w := Walk(C, d.t, d.prev, d.term, ipCodeword', d.term, [], MaxWordLength);
      StepWalkFails(C, ResetOnly, MaxWordLength, d, input, u, ipCodeword', MaxWordLength, w);
      prevCodeword', codeSize', byteVal', crashed := ExpandCodeword(ipCodeword', prevCodeword, codeSize, byteVal, ofp);
      if crashed {
        return true, Crashed, ipCodeword', prevCodeword', codeSize', byteVal';
      }
      StepWalkEmits(C, ResetOnly, MaxWordLength, d, input, u, ipCodeword', MaxWordLength, w, AsTable(), codeSize');
      stop, end := false, Finished;
    }

    /**
     * decompress: while unpack does not hit end of input, expand each
     * codeword no greater than the next free codeword, and from the second
     * codeword on build the entry of the previous codeword and the running
     * byte; an unknown codeword ends the program with
     * DECOMPRESSION_ERROR. From an unpacker holding less than a byte, what
     * it writes and how it ends are Lzw's decoder for the C variant.
     */
    method Decompress(ifp: File, ofp: File) returns (end: Ending)
      requires Valid() && stackPointer == 0 && UnpackerClean(UnpackerState()) && ifp != ofp
      modifies this`nextAvailableCodeword, this`codewordLen, this`index, this`unpackBarrel, this`unpackResidue
      modifies this`stackPointer, dictionary, indirectionTable, stack, ifp, ofp
      ensures var r := DecodeFrom(C, ResetOnly, MaxWordLength,
                                  Dec(old(AsTable()), CNullCw, 0, MinCwLen, 0, old(UnpackerState())), old(ifp.data));
        end == r.end && ofp.data == old(ofp.data) + r.out
    {
      var ipCodeword: nat := 0;
      var prevCodeword: nat := CNullCw;
      var codeSize := MinCwLen;
      var byteVal: Byte := 0;
      ghost var d := Dec(AsTable(), CNullCw, 0, MinCwLen, 0, UnpackerState());
      ghost var r0 := DecodeFrom(C, ResetOnly, MaxWordLength, d, ifp.data);
      ghost var goal := Decoded(r0.end, ofp.data + r0.out);
      while true
        invariant Valid() && stackPointer == 0
        invariant d == Dec(AsTable(), prevCodeword, byteVal, codeSize, ipCodeword, UnpackerState())
        invariant Underway(C, ResetOnly, MaxWordLength, d, ifp.data, ofp.data, goal)
        decreases |ifp.data|
      {
        ghost var input := ifp.data;
        ghost var out0 := ofp.data;
        var stop;
        stop, end, ipCodeword, prevCodeword, codeSize, byteVal :=
          DecompressCodeword(ipCodeword, prevCodeword, codeSize, byteVal, ifp, ofp);
        ghost var s := DecodeStep(C, ResetOnly, MaxWordLength, d, input);
        if stop {
          UnderwayStop(C, ResetOnly, MaxWordLength, d, input, out0, goal, end);
          return;
        }
        UnderwayEmit(C, ResetOnly, MaxWordLength, d, input, out0, goal, s.bytes, s.d, s.rest);
        d := s.d;
      }
    }
  }
}
