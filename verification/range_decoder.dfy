/** The range decoder, seen only through the one call the bit-tree decoder makes
    of it: `DecodeBit(probs, index)` decides one bit using the adaptive
    probability `probs[index]`, then adapts that probability to the bit.  How
    the arithmetic decision is made and how the probability is adapted belong to
    the range decoder itself; here they are the two functions of a `Coder`, so
    everything proved about the bit tree holds whatever they are. */
module RangeDecoder {
  import opened JavaInt

  /** One adaptive probability model: a Java `short`. */
  newtype Prob = x: int | -0x8000 <= x < 0x8000

  /** The range decoder's own state: its `Range` and `Code` registers and how
      many bytes of the compressed stream it has consumed. */
  datatype CoderState = CoderState(range: int, code: int, consumed: nat)

  /** The outcome of one arithmetic decision: the bit and the decoder's next state. */
  datatype Decision = Decision(bit: Bit, next: CoderState)

  /** The range decoder's arithmetic: how a bit is decided from the current state
      and a probability, and how that probability is then adapted. */
  datatype Coder = Coder(decide: (CoderState, Prob) -> Decision, adapt: (Prob, Bit) -> Prob)
  {
    /** One call `DecodeBit(probs, index)` in state `s`, as a value: the bit
        decided with `probs[index]`, the next state, and `probs` with only that
        model adapted. */
    function Apply(s: CoderState, probs: seq<Prob>, index: int): (o: Outcome)
      requires 0 <= index < |probs|
      ensures |o.probs| == |probs|
    {
      var d := decide(s, probs[index]);
      Outcome(d.bit, d.next, probs[index := adapt(probs[index], d.bit)])
    }
  }

  /** The effect of one `DecodeBit` call. */
  datatype Outcome = Outcome(bit: Bit, next: CoderState, probs: seq<Prob>)

  class Decoder {
    const coder: Coder
    var state: CoderState
    /** The indices passed to `DecodeBit` so far, in order. */
    ghost var Probed: seq<int>

    constructor (coder: Coder, initial: CoderState)
      ensures this.coder == coder && state == initial && Probed == []
    {
      this.coder := coder;
      state := initial;
      Probed := [];
    }

    /** Decides one bit with the model `probs[index]` and adapts that model; no
        other entry of `probs` changes. */
    method DecodeBit(probs: array<Prob>, index: int) returns (bit: Bit)
      requires 0 <= index < probs.Length
      modifies this, probs
      ensures var o := coder.Apply(old(state), old(probs[..]), index);
        bit == o.bit && state == o.next && probs[..] == o.probs
      ensures Probed == old(Probed) + [index]
    {
      var d := coder.decide(state, probs[index]);
      probs[index] := coder.adapt(probs[index], d.bit);
      state := d.next;
      Probed := Probed + [index];
      bit := d.bit;
    }
  }
}
