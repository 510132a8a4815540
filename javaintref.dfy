/*
 * java/codec/IntRef.java: a mutable integer holder, through which unpack
 * hands its codeword back to the decompressor. It only ever holds a
 * codeword, so its value is a natural number here.
 */
module JavaIntRef {
  class IntRef {
    var value: nat

    constructor (initial: nat)
      ensures value == initial
    {
      value := initial;
    }
  }
}
