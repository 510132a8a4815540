/*
 * python/Dictionary.py: the dictionary object of the Python codec. It is
 * one Python dict used two ways: compressing, the key (byte, pointer)
 * holds the entry's address; decompressing, the key address holds the
 * entry's (byte, pointer). The two uses are the two map fields here, one
 * of which stays empty. reset_dictionary replaces the dict by an empty
 * one, so unlike the Java indirection table nothing stale survives it.
 *
 * The dictionary stands for a value of LzTable through ghost fields: the
 * entry array and indirection table the specification's builds would
 * have produced. Valid() ties the dict to them, and every method is
 * proved against that table.
 */
module PyDictionary {
  import opened BitString
  import opened LzConsts
  import opened LzTable

  /** entry_match's lookup: the address stored under (b, pointer), if any. */
  function Lookup(pairs: map<(Byte, int), int>, pointer: int, b: Byte): int
  {
    if (b, pointer) in pairs then pairs[(b, pointer)] else NoMatch
  }

  /** The compress-mode dict answers every lookup as the table's match does. */
  ghost predicate PairsAgree(pairs: map<(Byte, int), int>, t: Table)
  {
    Sized(t) && forall p: nat, b: Byte :: Lookup(pairs, p, b) == Match(t, p, b)
  }

  /** The decompress-mode dict holds exactly the live addresses, each with its entry. */
  ghost predicate CellsAgree(cells: map<int, (Byte, int)>, t: Table)
  {
    Sized(t) &&
    (forall a :: a in cells <==> Live(t, a)) &&
    (forall a :: a in cells ==> Live(t, a) && cells[a] == (t.entries[a].byteVal, t.entries[a].pointer))
  }

  /**
   * Storing the new address under (b, p) keeps the compress-mode dict in
   * step with a write of (p, b): the key now names the new entry, and no
   * other key gains or loses a match.
   */
  lemma WriteKeepsPairs(pairs: map<(Byte, int), int>, t: Table, p: nat, b: Byte)
    requires PairsAgree(pairs, t) && t.next < DictFull
    ensures PairsAgree(pairs[(b, p) := t.next], Write(t, Compressing, p, b))
  {
    var r := Write(t, Compressing, p, b);
    var pairs' := pairs[(b, p) := t.next];
    forall p': nat, b': Byte
      ensures Lookup(pairs', p', b') == Match(r, p', b')
    {
      if (p', b') != (p, b) {
        assert Lookup(pairs', p', b') == Match(t, p', b');
        assert IndexAt(r, p', b') == IndexAt(t, p', b');
      }
    }
  }

  class Dictionary {
    /** Compressing: the key (byte, pointer) holds the entry's address. */
    var pairs: map<(Byte, int), int>
    /** Decompressing: the key address holds the entry's (byte, pointer). */
    var cells: map<int, (Byte, int)>
    var nextAvailableCodeword: int
    var codewordLen: int
    var compressMode: bool

    /** The entry array of the table the dict stands for. */
    ghost var entries: seq<Entry>
    /** The indirection table of the table the dict stands for. */
    ghost var index: map<(int, int), int>

    /** The dictionary as a value. */
    ghost function AsTable(): Table
      reads this
    {
      Table(entries, index, nextAvailableCodeword, codewordLen)
    }

    ghost function AsMode(): Mode
      reads this
    {
      if compressMode then Compressing else Decompressing
    }

    /** The dict is the table, keyed as the mode requires; the other use is empty. */
    ghost predicate Valid()
      reads this
    {
      Sized(AsTable()) &&
      if compressMode then cells == map[] && PairsAgree(pairs, AsTable())
      else pairs == map[] && CellsAgree(cells, AsTable())
    }

    /**
     * Dictionary(comp_mode): next free codeword 256, width 9. The dict
     * starts empty.
     */
    constructor (compMode: bool)
      ensures Valid() && compressMode == compMode && pairs == map[] && cells == map[]
      ensures AsTable() == Table(seq(DictFull, _ => Entry(0, 0)), map[], FirstCw, MinCwLen)
    {
      pairs := map[];
      cells := map[];
      compressMode := compMode;
      nextAvailableCodeword := FirstCw;
      codewordLen := MinCwLen;
      entries := seq(DictFull, _ => Entry(0, 0));
      index := map[];
    }

    /**
     * reset_dictionary: the next free codeword goes back to the first and
     * the dict is emptied, so no earlier pair matches any more; the width
     * is returned for the caller to store.
     */
    method ResetDictionary() returns (len: int)
      requires Valid()
      modifies this
      ensures Valid() && len == MinCwLen && compressMode == old(compressMode)
      ensures AsTable() == old(AsTable()).(next := FirstCw)
      ensures pairs == map[] && cells == map[]
      ensures forall pointer: int, b: Byte :: EntryMatch(pointer, b) == NoMatch
    {
      nextAvailableCodeword := FirstCw;
      pairs := map[];
      cells := map[];
      len := MinCwLen;
    }

    /**
     * __set_dictionary_entry: compressing, store the address under
     * (byte, pointer); decompressing, store (byte, pointer) under the
     * address. The table the dict stands for gets the entry at the address
     * and, compressing, the indirection to it.
     */
    method SetDictionaryEntry(address: int, pointer: nat, b: Byte)
      requires 0 <= address < |entries|
      modifies this
      ensures entries == old(entries)[address := Entry(pointer, b)]
      ensures compressMode ==>
        pairs == old(pairs)[(b, pointer) := address] && index == old(index)[(pointer, b) := address] && cells == old(cells)
      ensures !compressMode ==>
        cells == old(cells)[address := (b, pointer)] && pairs == old(pairs) && index == old(index)
      ensures nextAvailableCodeword == old(nextAvailableCodeword) && codewordLen == old(codewordLen)
      ensures compressMode == old(compressMode)
    {
      if compressMode {
        pairs := pairs[(b, pointer) := address];
        index := index[(pointer, b) := address];
      } else {
        cells := cells[address := (b, pointer)];
      }
      entries := entries[address := Entry(pointer, b)];
    }

    /**
     * build_entry: reset when full, store (codeword, b) at the next free
     * address, apply the width rule (one address earlier when
     * decompressing, and back to 9 when decompressing at the last address)
     * and advance. The new dictionary is the specification's build under
     * the reset-then-write policy, and the dict stays in step with it.
     */
    method BuildEntry(codeword: nat, b: Byte) returns (len: int)
      requires Valid()
      modifies this
      ensures Valid() && len == codewordLen && compressMode == old(compressMode)
      ensures AsTable() == Build(old(AsTable()), AsMode(), ResetThenWrite, codeword, b)
    {
      ghost var t0 := AsTable();
      if DictionaryFull() {
        codewordLen := ResetDictionary();
      }
      ghost var t1 := AsTable();
      ghost var pairs1 := pairs;
      assert t1 == (if t0.next == DictFull then ResetTable(t0.entries, t0.index) else t0);
      SetDictionaryEntry(nextAvailableCodeword, codeword, b);
      if codewordLen < MaxCwLen {
        var offset;
        if !compressMode {
          offset := 1;
        } else {
          offset := 0;
        }
        if nextAvailableCodeword == Shl1(codewordLen) - offset {
          codewordLen := codewordLen + 1;
        }
      } else if !compressMode && nextAvailableCodeword == DictFull - 1 {
        codewordLen := MinCwLen;
      }
      if nextAvailableCodeword != DictFull {
        nextAvailableCodeword := nextAvailableCodeword + 1;
      }
      len := codewordLen;
      assert AsTable() == Write(t1, AsMode(), codeword, b);
      if compressMode {
        WriteKeepsPairs(pairs1, t1, codeword, b);
      }
    }

    /**
     * entry_match: the address stored under (b, pointer), or NOMATCH. On a
     * valid dictionary this is the table's match: only live entries
     * holding exactly that pair are found. A decompress-mode dict has no
     * pair keys and matches nothing.
     */
    function EntryMatch(pointer: int, b: Byte): (r: int)
      reads this
      ensures Valid() && compressMode && 0 <= pointer ==> r == Match(AsTable(), pointer, b)
      ensures Valid() && !compressMode ==> r == NoMatch
    {
      Lookup(pairs, pointer, b)
    }

    /**
     * codeword_valid: a codeword the decompressor can expand is a root, a
     * live entry, or the next free address (the KwK case).
     */
    predicate CodewordValid(codeword: int)
      reads this
      ensures Valid() && 0 <= codeword ==>
        (CodewordValid(codeword) <==> codeword < FirstCw || Live(AsTable(), codeword) || codeword == nextAvailableCodeword)
    {
      codeword <= nextAvailableCodeword
    }

    /** is_next_free_entry: the address the next build writes, unless the dictionary is full. */
    predicate IsNextFreeEntry(address: int)
      reads this
      ensures forall pointer: nat, b: Byte :: Valid() && IsNextFreeEntry(address) && 0 <= address < DictFull ==>
        Build(AsTable(), AsMode(), ResetThenWrite, pointer, b).entries[address] == Entry(pointer, b) &&
        Build(AsTable(), AsMode(), ResetThenWrite, pointer, b).next == address + 1
    {
      address == nextAvailableCodeword
    }

    /** dictionary_full: the next build resets the dictionary first. */
    predicate DictionaryFull()
      reads this
      ensures forall pointer: nat, b: Byte :: Valid() ==>
        (DictionaryFull() <==> Build(AsTable(), AsMode(), ResetThenWrite, pointer, b).next <= nextAvailableCodeword)
    {
      nextAvailableCodeword == DictFull
    }

    /**
     * dictionary_entry_byte: the byte stored under the address; the last
     * byte of the string the entry names. The address must be a key (the
     * dict lookup raises KeyError otherwise), which on a valid
     * decompress-mode dictionary means a live entry.
     */
    function DictionaryEntryByte(address: int): (r: Byte)
      reads this
      requires address in cells
      ensures Valid() && !compressMode ==> Live(AsTable(), address) && r == entries[address].byteVal
      ensures Valid() && !compressMode && Descends(entries, address + 1) ==>
        Str(entries, address)[|Str(entries, address)| - 1] == r
    {
      cells[address].0
    }

    /**
     * dictionary_entry_pointer: the pointer stored under the address; the
     * codeword of the string the entry extends. The address must be a key,
     * as for the byte.
     */
    function DictionaryEntryPointer(address: int): (r: int)
      reads this
      requires address in cells
      ensures Valid() && !compressMode ==> Live(AsTable(), address) && r == entries[address].pointer
      ensures Valid() && !compressMode && Descends(entries, address + 1) ==>
        0 <= r < address && Str(entries, address) == Str(entries, r) + [entries[address].byteVal]
    {
      cells[address].1
    }

    /** root_codeword: exactly the codewords whose string is a single byte. */
    predicate RootCodeword(codeword: int)
      reads this
      ensures Valid() && 0 <= codeword < DictFull && Descends(entries, codeword + 1) ==>
        (RootCodeword(codeword) <==> |Str(entries, codeword)| == 1)
    {
      codeword < FirstCw
    }
  }

  /**
   * The module's mini test: on a fresh compress-mode dictionary, build
   * (0x000, 0x22), (0x001, 0x33) and (0x100, 0x44); then (0x001, 0x33)
   * matches 0x101, (0x001, 0x32) matches nothing, and (0x100, 0x44)
   * matches 0x102.
   */
  method MiniTest() returns (m1: int, m2: int, m3: int)
    ensures m1 == 0x101 && m2 == NoMatch && m3 == 0x102
  {
    var mydict := new Dictionary(true);
    var len := mydict.BuildEntry(0x000, 0x22);
    len := mydict.BuildEntry(0x001, 0x33);
    len := mydict.BuildEntry(0x100, 0x44);
    m1 := mydict.EntryMatch(0x001, 0x33);
    m2 := mydict.EntryMatch(0x001, 0x32);
    m3 := mydict.EntryMatch(0x100, 0x44);
  }
}
