/** The signature device: identity, label, algorithm tag, signer and the
    signature chain (counter and last signature) that each signing advances. */
module Domain {
  import opened Types
  import Base64
  import Uuid
  import opened Crypto

  /** The part of a device that a signing reads and then advances. */
  datatype ChainState = ChainState(counter: uint64, lastSig: seq<byte>)

  /** `SignatureCounter += 1` on a Go `uint64`: unsigned addition is taken
      modulo 2^64, so the counter wraps around to 0 after its largest value. */
  function Increment(c: uint64): uint64 {
    if c == Uint64Limit - 1 then 0 else c + 1
  }

  /** `Increment` is addition of one modulo 2^64; it gives 0 exactly after
      the largest value, and otherwise one more. */
  lemma {:induction false} IncrementWraps(c: uint64)
    ensures Increment(c) == (c + 1) % Uint64Limit
    ensures Increment(c) == 0 <==> c == Uint64Limit - 1
    ensures c < Uint64Limit - 1 ==> Increment(c) == c + 1
  {
  }

  /** `SetLastSignature` on values: the chain moves one step and remembers `sig`. */
  function Advance(st: ChainState, sig: seq<byte>): ChainState {
    ChainState(Increment(st.counter), sig)
  }

  /** The state every new device starts its chain from: counter 0 and the
      base64 text of the identity's 16 raw bytes. */
  function InitialState(id: Uuid.Uuid): (st: ChainState)
    ensures st.counter == 0 && |st.lastSig| == 24
    ensures Base64.Decode(st.lastSig).Some? && Base64.Decode(st.lastSig).value == id
  {
    IdEncoding(id);
    ChainState(0, Base64.Encode(id))
  }

  /** The base64 text of an identity's 16 bytes: 24 characters that decode back to it. */
  lemma {:induction false} IdEncoding(id: Uuid.Uuid)
    ensures |Base64.Encode(id)| == 24
    ensures Base64.Decode(Base64.Encode(id)).Some? && Base64.Decode(Base64.Encode(id)).value == id
  {
    var s: seq<byte> := id;
    Base64.EncodeLength(s);
    assert Base64.EncodedLen(16) == 24;
    Base64.DecodeEncode(s);
  }

  /** The label a device gets: the requested one, or the identity's text form
      when none was given. */
  function DefaultLabel(requested: string, id: Uuid.Uuid): (r: string)
    ensures requested != "" ==> r == requested
    ensures requested == "" ==> r == Uuid.String(id) && |r| == 36
  {
    Uuid.StringFormat(id);
    if requested == "" then Uuid.String(id) else requested
  }

  class SignatureDevice {
    var id: Uuid.Uuid
    var deviceLabel: string
    var algorithm: string
    var signatureCounter: uint64
    var signer: Signer
    var lastSig: seq<byte>

    /** The chain part of the device. */
    function State(): ChainState
      reads this
    {
      ChainState(signatureCounter, lastSig)
    }

    /** `NewSignatureDevice`. The identity `uuid.New()` would draw is a
        parameter; the base64 text of its raw bytes is written into a fresh
        buffer of `EncodedLen(16)` bytes and becomes the first `LastSig`. */
    constructor (requestedLabel: string, algorithm: string, signer: Signer, id: Uuid.Uuid)
      ensures this.id == id
      ensures deviceLabel == DefaultLabel(requestedLabel, id) && deviceLabel != ""
      ensures this.algorithm == algorithm && this.signer == signer
      ensures State() == InitialState(id)
      ensures signatureCounter == 0 && lastSig == Base64.Encode(id) && |lastSig| == 24
    {
      var encoded := new byte[Base64.EncodedLen(|id|)];
      Base64.EncodeInto(encoded, id);
      this.id := id;
      this.deviceLabel := DefaultLabel(requestedLabel, id);
      this.algorithm := algorithm;
      this.signatureCounter := 0;
      this.signer := signer;
      this.lastSig := encoded[..];
    }

    /** `SetLastSignature`: one more signature in the chain, and `sig` is now
        the last one. Nothing else about the device changes. */
    method SetLastSignature(sig: seq<byte>)
      modifies this
      ensures signatureCounter == Increment(old(signatureCounter))
      ensures signatureCounter == (old(signatureCounter) + 1) % Uint64Limit
      ensures old(signatureCounter) < Uint64Limit - 1 ==> signatureCounter == old(signatureCounter) + 1
      ensures lastSig == sig
      ensures State() == Advance(old(State()), sig)
      ensures id == old(id) && deviceLabel == old(deviceLabel) && algorithm == old(algorithm) && signer == old(signer)
    {
      IncrementWraps(signatureCounter);
      signatureCounter := Increment(signatureCounter);
      lastSig := sig;
    }
  }

  /** After `n` advances from a counter with room for them, the counter has
      grown by exactly `n` and the last signature is the last one given. */
  lemma {:induction false} AdvanceMany(st: ChainState, sigs: seq<seq<byte>>)
    requires st.counter + |sigs| < Uint64Limit
    ensures AdvanceAll(st, sigs).counter == st.counter + |sigs|
    ensures AdvanceAll(st, sigs).lastSig == if |sigs| == 0 then st.lastSig else sigs[|sigs| - 1]
    decreases |sigs|
  {
    if |sigs| > 0 {
      AdvanceMany(Advance(st, sigs[0]), sigs[1..]);
    }
  }

  /** Applying `Advance` once per signature, in order. */
  function AdvanceAll(st: ChainState, sigs: seq<seq<byte>>): ChainState
    decreases |sigs|
  {
    if |sigs| == 0 then st else AdvanceAll(Advance(st, sigs[0]), sigs[1..])
  }
}
