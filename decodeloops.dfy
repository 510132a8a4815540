/*
 * The decompressor's loop seen from the middle: the bytes written so far
 * plus what decoding the rest of the input writes stay constant. The three
 * decompress methods keep this invariant with the lemmas here, one for
 * each way a pass of the loop can go.
 */
module DecodeLoops {
  import opened BitString
  import opened LzConsts
  import opened LzTable
  import opened Packing
  import opened Lzw
  import opened RoundTrip

  /**
   * With `out` written, decoder state `d` and `input` left, the loop ends
   * with `goal`: its ending, and everything written.
   */
  ghost predicate Underway(v: Variant, policy: ResetPolicy, maxLen: nat, d: Dec, input: seq<Byte>,
                           out: seq<Byte>, goal: Decoded)
  {
    DecOk(v, d) &&
    var r := DecodeFrom(v, policy, maxLen, d, input);
    r.end == goal.end && out + r.out == goal.out
  }

  /** A pass that stops the loop: the goal is reached. */
  lemma UnderwayStop(v: Variant, policy: ResetPolicy, maxLen: nat, d: Dec, input: seq<Byte>,
                     out: seq<Byte>, goal: Decoded, e: Ending)
    requires Underway(v, policy, maxLen, d, input, out, goal)
    requires DecodeStep(v, policy, maxLen, d, input) == Stop(e)
    ensures goal == Decoded(e, out)
  {
  }

  /** A pass that writes a string keeps the invariant. */
  lemma UnderwayEmit(v: Variant, policy: ResetPolicy, maxLen: nat, d: Dec, input: seq<Byte>,
                     out: seq<Byte>, goal: Decoded, bs: seq<Byte>, d': Dec, rest: seq<Byte>)
    requires Underway(v, policy, maxLen, d, input, out, goal)
    requires DecodeStep(v, policy, maxLen, d, input) == Emit(bs, d', rest)
    ensures Underway(v, policy, maxLen, d', rest, out + bs, goal)
  {
    SeqAssoc(out, bs, DecodeFrom(v, policy, maxLen, d', rest).out);
  }

  /** The unpack call read nothing (Java, Python) or hit end of input (C). */
  lemma StepDry(v: Variant, policy: ResetPolicy, maxLen: nat, d: Dec, input: seq<Byte>, u: Unpacked)
    requires DecOk(v, d) && u == UnpackFor(v, d.ust, input, d.size)
    requires (v == C && u.cw == None) || (v != C && u.count == 0)
    ensures DecodeStep(v, policy, maxLen, d, input) == Stop(Finished)
  {
  }

  /** The codeword the loop works on after an unpack call that went on. */
  function Received(v: Variant, d: Dec, u: Unpacked): nat
  {
    if u.cw.Some? then u.cw.value else if v == Java then d.held else Null(v)
  }

  /** A codeword beyond the next free address: the unknown-codeword error. */
  lemma StepUnknown(v: Variant, policy: ResetPolicy, maxLen: nat, d: Dec, input: seq<Byte>, u: Unpacked)
    requires DecOk(v, d) && u == UnpackFor(v, d.ust, input, d.size)
    requires !((v == C && u.cw == None) || (v != C && u.count == 0))
    requires Received(v, d, u) > d.t.next
    ensures DecodeStep(v, policy, maxLen, d, input) == Stop(Failed(DecompressionError))
  {
  }

  /** A known codeword whose walk fails: the pass stops. */
  lemma StepWalkFails(v: Variant, policy: ResetPolicy, maxLen: nat, d: Dec, input: seq<Byte>, u: Unpacked,
                      c: nat, bound: nat, w: Walked)
    requires DecOk(v, d) && u == UnpackFor(v, d.ust, input, d.size)
    requires !((v == C && u.cw == None) || (v != C && u.count == 0))
    requires c == Received(v, d, u) && c <= d.t.next && bound == StackBound(v, maxLen)
    requires w == Walk(v, d.t, d.prev, d.term, c, if v == C then d.term else 0, [], bound)
    ensures w.Overflow? ==> DecodeStep(v, policy, maxLen, d, input) == Stop(if v == C then Crashed else Failed(DecompressionError))
    ensures w.Unreadable? ==> DecodeStep(v, policy, maxLen, d, input) == Stop(Crashed)
  {
  }

  /**
   * A known codeword whose walk succeeds: the pass writes the string and,
   * after the first codeword, builds the entry of the previous codeword
   * and the string's first byte, giving dictionary `t` and width `size`.
   */
  lemma StepWalkEmits(v: Variant, policy: ResetPolicy, maxLen: nat, d: Dec, input: seq<Byte>, u: Unpacked,
                      c: nat, bound: nat, w: Walked, t: Table, size: int)
    requires DecOk(v, d) && u == UnpackFor(v, d.ust, input, d.size)
    requires !((v == C && u.cw == None) || (v != C && u.count == 0))
    requires c == Received(v, d, u) && c <= d.t.next && bound == StackBound(v, maxLen)
    requires w == Walk(v, d.t, d.prev, d.term, c, if v == C then d.term else 0, [], bound)
    requires w.Walked?
    requires t == if d.prev != Null(v) then Build(d.t, Decompressing, policy, d.prev, w.last) else d.t
    requires size == if d.prev != Null(v) then t.len else d.size
    ensures DecodeStep(v, policy, maxLen, d, input) == Emit(w.bytes, Dec(t, c, w.last, size, c, u.st), u.rest)
  {
  }
}
