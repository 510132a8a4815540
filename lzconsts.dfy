/*
 * The constants shared by the codec classes. The Java and Python versions
 * agree on every value; the C version differs only in its null codeword,
 * which is the dictionary size rather than 0xFFFF.
 */
module LzConsts {

  const BitSize := 1
  const ByteSize := 8
  const ByteMask := 0xff

  /** The first root codeword: a root codeword is its byte value. */
  const FirstRootCw := 0x000
  /** The first codeword that names a dictionary entry. */
  const FirstCw := 0x100

  /** Marks "no codeword" in the Java and Python versions. */
  const NullCw := 0xFFFF
  /** The packer's end-of-stream sentinel (Java, Python). */
  const EofFlush := NullCw
  /** The Python byte reader's end-of-input value. */
  const InputEof := NullCw

  const MinCwLen := 9
  const MaxCwLen := 12

  /** The number of dictionary addresses, 1 << MaxCwLen. */
  const DictFull := 4096
  const NoMatch := DictFull
  const MaxWordLength := DictFull
  const CodewordMask := DictFull - 1

  /** In the C version the null codeword is the dictionary size. */
  const CNullCw := DictFull

  const NoError := 0
  const UserError := 1
  const DecompressionError := 2
  const PackerError := 3
  const UnpackerError := 4
}
