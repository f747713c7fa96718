/** The signing path of the service: the canonical data a device signs, the
    sign step that advances a device's chain, device creation, and what a
    sequence of sign steps produces. HTTP and JSON handling are left out. */
module Api {
  import opened Types
  import Base64
  import Decimal
  import opened Uuid
  import opened Crypto
  import opened Domain
  import opened Persistence

  // ---------------------------------------------------------------------
  // Canonical signed data
  // ---------------------------------------------------------------------

  /** `PrepareData`: the decimal counter, `_`, the request data verbatim, `_`,
      and the base64 text of the last signature. */
  function PrepareData(counter: uint64, data: seq<byte>, lastSig: seq<byte>): seq<byte> {
    Decimal.FormatUint(counter) + [Underscore] + data + [Underscore] + Base64.Encode(lastSig)
  }

  /** The first position of `b` in `s`, if any. */
  function FirstIndexOf(s: seq<byte>, b: byte): (r: Option<nat>)
    ensures r.Some? ==> r.value < |s| && s[r.value] == b && forall k :: 0 <= k < r.value ==> s[k] != b
    ensures r.None? ==> forall k :: 0 <= k < |s| ==> s[k] != b
    decreases |s|
  {
    if |s| == 0 then None
    else if s[0] == b then Some(0)
    else match FirstIndexOf(s[1..], b)
      case None => None
      case Some(i) => Some(i + 1)
  }

  /** The last position of `b` in `s`, if any. */
  function LastIndexOf(s: seq<byte>, b: byte): (r: Option<nat>)
    ensures r.Some? ==> r.value < |s| && s[r.value] == b && forall k :: r.value < k < |s| ==> s[k] != b
    ensures r.None? ==> forall k :: 0 <= k < |s| ==> s[k] != b
    decreases |s|
  {
    if |s| == 0 then None
    else if s[|s| - 1] == b then Some(|s| - 1)
    else LastIndexOf(s[..|s| - 1], b)
  }

  /** The three fields a verifier recovers from canonical signed data. */
  datatype SignedFields = SignedFields(counter: nat, data: seq<byte>, lastSig: seq<byte>)

  /** Reads canonical signed data back: the counter is the text before the
      first `_`, the previous signature is the base64 text after the last
      `_`, and the request data is everything in between, `_` included. */
  function ParseSignedData(s: seq<byte>): Option<SignedFields> {
    match FirstIndexOf(s, Underscore)
    case None => None
    case Some(i) =>
      match LastIndexOf(s, Underscore)
      case None => None
      case Some(j) =>
        if j <= i then None
        else
          match Decimal.ParseUint(s[..i])
          case None => None
          case Some(counter) =>
            match Base64.Decode(s[j + 1..])
            case None => None
            case Some(lastSig) => Some(SignedFields(counter, s[i + 1..j], lastSig))
  }

  /** A separator right after a stretch without one is the first one. */
  lemma {:induction false} FirstIndexAfter(front: seq<byte>, rest: seq<byte>, b: byte)
    requires forall k :: 0 <= k < |front| ==> front[k] != b
    ensures FirstIndexOf(front + [b] + rest, b) == Some(|front|)
  {
    var s := front + [b] + rest;
    assert s[|front|] == b;
    assert forall k :: 0 <= k < |front| ==> s[k] == front[k];
  }

  /** A separator right before a stretch without one is the last one. */
  lemma {:induction false} LastIndexBefore(front: seq<byte>, rest: seq<byte>, b: byte)
    requires forall k :: 0 <= k < |rest| ==> rest[k] != b
    ensures LastIndexOf(front + [b] + rest, b) == Some(|front|)
    decreases |rest|
  {
    var s := front + [b] + rest;
    if |rest| == 0 {
      assert s == front + [b];
    } else {
      var init := rest[..|rest| - 1];
      assert s[|s| - 1] == rest[|rest| - 1];
      assert s[..|s| - 1] == front + [b] + init;
      LastIndexBefore(front, init, b);
    }
  }

  /** Two separators around a middle part, with none in the outer parts: the
      separators are the first and last `_`, and the three parts are where
      they were put. */
  lemma {:induction false} SplitAtSeparators(d: seq<byte>, mid: seq<byte>, e: seq<byte>)
    requires forall k :: 0 <= k < |d| ==> d[k] != Underscore
    requires forall k :: 0 <= k < |e| ==> e[k] != Underscore
    ensures var s, j := d + [Underscore] + mid + [Underscore] + e, |d| + |mid| + 1;
            && FirstIndexOf(s, Underscore) == Some(|d|)
            && LastIndexOf(s, Underscore).Some? && LastIndexOf(s, Underscore).value == j
            && s[..|d|] == d && s[|d| + 1..j] == mid && s[j + 1..] == e
  {
    var s := d + [Underscore] + mid + [Underscore] + e;
    assert s == d + [Underscore] + (mid + [Underscore] + e);
    FirstIndexAfter(d, mid + [Underscore] + e, Underscore);
    assert s == (d + [Underscore] + mid) + [Underscore] + e;
    LastIndexBefore(d + [Underscore] + mid, e, Underscore);
  }

  /** Cutting at two separators and joining the parts back gives the original. */
  lemma {:induction false} JoinAtSeparators(s: seq<byte>, i: nat, j: nat)
    requires i < j < |s| && s[i] == Underscore && s[j] == Underscore
    ensures s == s[..i] + [Underscore] + s[i + 1..j] + [Underscore] + s[j + 1..]
  {
  }

  /** The counter is the text before the first `_` and reads back as the counter. */
  lemma {:induction false} CounterPrefix(counter: uint64, data: seq<byte>, lastSig: seq<byte>)
    ensures var s, n := PrepareData(counter, data, lastSig), |Decimal.FormatUint(counter)|;
            FirstIndexOf(s, Underscore) == Some(n) && Decimal.ParseUint(s[..n]) == Some(counter as nat)
  {
    var d := Decimal.FormatUint(counter);
    var rest := data + [Underscore] + Base64.Encode(lastSig);
    assert PrepareData(counter, data, lastSig) == d + [Underscore] + rest;
    Decimal.FormatUintIsCanonical(counter);
    Decimal.ParseFormatUint(counter);
    FirstIndexAfter(d, rest, Underscore);
    assert (d + [Underscore] + rest)[..|d|] == d;
  }

  /** The base64 text of the previous signature is what follows the last `_`,
      and it decodes back to that signature. So every signed data ends with
      `_` followed by the base64 text of the signature it links to. */
  lemma {:induction false} LastSigSuffix(counter: uint64, data: seq<byte>, lastSig: seq<byte>)
    ensures var s, e := PrepareData(counter, data, lastSig), Base64.Encode(lastSig);
            |s| > |e| && LastIndexOf(s, Underscore).Some? && LastIndexOf(s, Underscore).value == |s| - |e| - 1 &&
            s[|s| - |e| - 1..] == [Underscore] + e &&
            Base64.Decode(s[|s| - |e|..]) == Some(lastSig)
  {
    var s, d, e := PrepareData(counter, data, lastSig), Decimal.FormatUint(counter), Base64.Encode(lastSig);
    var j := |d| + |data| + 1;
    assert LastIndexOf(s, Underscore).Some? && LastIndexOf(s, Underscore).value == j && s[j + 1..] == e by {
      Decimal.FormatUintIsCanonical(counter);
      Base64.EncodeHasNoUnderscore(lastSig);
      SplitAtSeparators(d, data, e);
    }
    assert s[j..] == [Underscore] + s[j + 1..];
    Base64.DecodeEncode(lastSig);
  }

  /** Reading canonical signed data back gives the counter, the data (even when
      it contains `_`) and the previous signature it was made from. */
  lemma {:induction false} ParsePrepareData(counter: uint64, data: seq<byte>, lastSig: seq<byte>)
    ensures ParseSignedData(PrepareData(counter, data, lastSig)) == Some(SignedFields(counter, data, lastSig))
  {
    var d, e := Decimal.FormatUint(counter), Base64.Encode(lastSig);
    Decimal.FormatUintIsCanonical(counter);
    Base64.EncodeHasNoUnderscore(lastSig);
    SplitAtSeparators(d, data, e);
    Decimal.ParseFormatUint(counter);
    Base64.DecodeEncode(lastSig);
  }

  /** Conversely, whatever reads back as fields (with a counter that fits a
      `uint64`) is exactly the canonical data of those fields. */
  lemma {:induction false} PrepareParseSignedData(s: seq<byte>)
    requires ParseSignedData(s).Some? && ParseSignedData(s).value.counter < Uint64Limit
    ensures var f := ParseSignedData(s).value; PrepareData(f.counter, f.data, f.lastSig) == s
  {
    var f := ParseSignedData(s).value;
    var i, j := FirstIndexOf(s, Underscore).value, LastIndexOf(s, Underscore).value;
    Decimal.FormatParseUint(s[..i]);
    Base64.EncodeDecode(s[j + 1..]);
    JoinAtSeparators(s, i, j);
  }

  /** Distinct (counter, data, previous signature) give distinct signed data. */
  lemma {:induction false} PrepareDataInjective(c: uint64, d: seq<byte>, l: seq<byte>, c': uint64, d': seq<byte>, l': seq<byte>)
    requires PrepareData(c, d, l) == PrepareData(c', d', l')
    ensures c == c' && d == d' && l == l'
  {
    ParsePrepareData(c, d, l);
    ParsePrepareData(c', d', l');
  }

  /** The length of the signed data: the counter's digits, the data, the two
      separators and 4 * ceil(|lastSig| / 3) base64 characters. */
  lemma {:induction false} PrepareDataLength(counter: uint64, data: seq<byte>, lastSig: seq<byte>)
    ensures |PrepareData(counter, data, lastSig)|
            == |Decimal.FormatUint(counter)| + |data| + 2 + 4 * ((|lastSig| + 2) / 3)
  {
    Base64.EncodeLength(lastSig);
  }

  /** The ASCII bytes of the unit test's strings. */
  lemma {:induction false} AsciiExampleCodes()
    ensures AsciiBytes("42") == [52, 50] && AsciiBytes("123") == [49, 50, 51]
    ensures AsciiBytes("NDI=") == [78, 68, 73, 61]
  {
  }

  /** The unit test's expected output is its parts joined by `_`. */
  lemma {:induction false} AsciiExample()
    ensures AsciiBytes("123_Hello World!_NDI=") ==
            AsciiBytes("123") + [Underscore] + AsciiBytes("Hello World!") + [Underscore] + AsciiBytes("NDI=")
  {
    assert AsciiBytes("123_") == AsciiBytes("123") + [Underscore] by {
      assert "123" + "_" == "123_";
      AsciiBytesAppend("123", "_");
    }
    assert AsciiBytes("123_Hello World!") == AsciiBytes("123_") + AsciiBytes("Hello World!") by {
      assert "123_" + "Hello World!" == "123_Hello World!";
      AsciiBytesAppend("123_", "Hello World!");
    }
    assert AsciiBytes("123_Hello World!_") == AsciiBytes("123_Hello World!") + [Underscore] by {
      assert "123_Hello World!" + "_" == "123_Hello World!_";
      AsciiBytesAppend("123_Hello World!", "_");
    }
    assert AsciiBytes("123_Hello World!_NDI=") == AsciiBytes("123_Hello World!_") + AsciiBytes("NDI=") by {
      assert "123_Hello World!_" + "NDI=" == "123_Hello World!_NDI=";
      AsciiBytesAppend("123_Hello World!_", "NDI=");
    }
  }

  /** The unit test's vector: counter 123, data "Hello World!", last signature "42". */
  lemma {:induction false} PrepareDataExample()
    ensures PrepareData(123, AsciiBytes("Hello World!"), AsciiBytes("42")) == AsciiBytes("123_Hello World!_NDI=")
  {
    Decimal.FormatUintExample();
    Base64.EncodeExample();
    AsciiExampleCodes();
    AsciiExample();
  }

  // ---------------------------------------------------------------------
  // The sign step
  // ---------------------------------------------------------------------

  /** What `SignData` answers: the signature and the exact bytes that were signed. */
  datatype SignDataResponse = SignDataResponse(signature: seq<byte>, signedData: seq<byte>)

  /** A signer's `Sign`: the cryptography, supplied by the caller. */
  type SignFunction = (Signer, seq<byte>) -> SignResult

  /** The sign step on values: prepare the data from the current chain state,
      sign it, and advance the chain with whatever signature came back; an
      error from the signer is dropped. */
  function SignStep(st: ChainState, signer: Signer, raw: seq<byte>, sign: SignFunction): (ChainState, SignDataResponse) {
    var data := PrepareData(st.counter, raw, st.lastSig);
    var signature := SignatureOf(sign(signer, data));
    (Advance(st, signature), SignDataResponse(signature, data))
  }

  /** The sign step of the `SignData` handler: look the device up, prepare the
      data, sign it and record the signature in the device. The handler does
      not check the lookup, so the device must be registered. */
  method SignData(db: InMemoryDB, id: Uuid, raw: seq<byte>, sign: SignFunction) returns (response: SignDataResponse)
    requires id in db.data
    modifies db.data[id]
    ensures db.data == old(db.data)
    ensures var device := db.data[id];
            && response.signedData == PrepareData(old(device.signatureCounter), raw, old(device.lastSig))
            && response.signature == SignatureOf(sign(device.signer, response.signedData))
            && device.signatureCounter == Increment(old(device.signatureCounter))
            && device.lastSig == response.signature
            && device.id == old(device.id) && device.deviceLabel == old(device.deviceLabel)
            && device.algorithm == old(device.algorithm) && device.signer == old(device.signer)
            && (device.State(), response) == SignStep(old(device.State()), device.signer, raw, sign)
    ensures forall k :: k in db.data && db.data[k] != db.data[id] ==>
              db.data[k].State() == old(db.data[k].State())
  {
    var device, _ := db.Get(id);
    var data := PrepareData(device.signatureCounter, raw, device.lastSig);
    var signature := SignatureOf(sign(device.signer, data));
    device.SetLastSignature(signature);
    response := SignDataResponse(signature, data);
  }

  /** Device creation as the `CreateSignatureDevice` handler does it: pick a
      signer for the tag, build the device and register it. The algorithm
      stored is the request's tag, verbatim. */
  method CreateSignatureDevice(db: InMemoryDB, algorithm: string, requestedLabel: string, keyPair: KeyPair, id: Uuid)
    returns (result: Result<SignatureDevice, string>)
    modifies db
    ensures SignerFactory(algorithm, keyPair).Failure? ==>
              result == Failure(SignerFactory(algorithm, keyPair).error) && db.data == old(db.data)
    ensures SignerFactory(algorithm, keyPair).Success? ==>
              && result.Success? && fresh(result.value)
              && db.data == old(db.data)[id := result.value]
              && result.value.id == id && result.value.deviceLabel == DefaultLabel(requestedLabel, id)
              && result.value.algorithm == algorithm && result.value.signer == SignerFactory(algorithm, keyPair).value
              && result.value.State() == InitialState(id)
  {
    var signer := SignerFactory(algorithm, keyPair);
    if signer.Failure? {
      return Failure(signer.error);
    }
    var device := new SignatureDevice(requestedLabel, algorithm, signer.value, id);
    db.Set(device.id, device);
    result := Success(device);
  }

  // ---------------------------------------------------------------------
  // Sequences of sign steps
  // ---------------------------------------------------------------------

  /** Sign steps on one device, one per request, in the order they ran. */
  function Run(st: ChainState, signer: Signer, raws: seq<seq<byte>>, sign: SignFunction): (ChainState, seq<SignDataResponse>)
    decreases |raws|
  {
    if |raws| == 0 then (st, [])
    else
      var (next, response) := SignStep(st, signer, raws[0], sign);
      var (last, responses) := Run(next, signer, raws[1..], sign);
      (last, [response] + responses)
  }

  /** The signature the `k`-th record of a run links to: the run's starting
      signature for the first record, the signature of the record before it
      otherwise. */
  function LinkedSignature(first: seq<byte>, rs: seq<SignDataResponse>, k: nat): seq<byte>
    requires k <= |rs|
  {
    if k == 0 then first else rs[k - 1].signature
  }

  /** The chain from state `st`: the `k`-th signing signs counter `st.counter + k`
      and links to the signature before it (to `st.lastSig` for the first); it
      asks for the signature of exactly that data; and afterwards the counter has
      grown by the number of signings and the last signature is the last one
      returned. */
  lemma {:induction false} RunChain(st: ChainState, signer: Signer, raws: seq<seq<byte>>, sign: SignFunction)
    requires st.counter + |raws| < Uint64Limit
    ensures var (last, rs) := Run(st, signer, raws, sign);
            && |rs| == |raws|
            && last.counter == st.counter + |raws|
            && last.lastSig == LinkedSignature(st.lastSig, rs, |raws|)
            && (forall k :: 0 <= k < |raws| ==>
                 rs[k].signedData == PrepareData(st.counter + k, raws[k], LinkedSignature(st.lastSig, rs, k)))
            && (forall k :: 0 <= k < |raws| ==> rs[k].signature == SignatureOf(sign(signer, rs[k].signedData)))
    decreases |raws|
  {
    if |raws| > 0 {
      var (next, r0) := SignStep(st, signer, raws[0], sign);
      assert next.counter == st.counter + 1 by { IncrementWraps(st.counter); }
      RunChain(next, signer, raws[1..], sign);
      var (last, rest) := Run(next, signer, raws[1..], sign);
      var rs := [r0] + rest;
      assert Run(st, signer, raws, sign) == (last, rs);
      forall k | 0 <= k < |raws|
        ensures rs[k].signedData == PrepareData(st.counter + k, raws[k], LinkedSignature(st.lastSig, rs, k))
      {
        if k > 0 {
          assert rs[k] == rest[k - 1] && raws[k] == raws[1..][k - 1];
          if k > 1 {
            assert rs[k - 1] == rest[k - 2];
          }
        }
      }
    }
  }

  /** The `k`-th record of a run reads back as counter `st.counter + k`, its
      request data and the signature before it (`st.lastSig` for the first). */
  lemma {:induction false} RunRecordParses(st: ChainState, signer: Signer, raws: seq<seq<byte>>, sign: SignFunction, k: nat)
    requires st.counter + |raws| < Uint64Limit && k < |raws|
    ensures var rs := Run(st, signer, raws, sign).1;
            && |rs| == |raws|
            && ParseSignedData(rs[k].signedData) ==
               Some(SignedFields(st.counter + k, raws[k], LinkedSignature(st.lastSig, rs, k)))
  {
    var rs := Run(st, signer, raws, sign).1;
    assert |rs| == |raws| by { RunChain(st, signer, raws, sign); }
    var link := LinkedSignature(st.lastSig, rs, k);
    assert rs[k].signedData == PrepareData(st.counter + k, raws[k], link) by {
      RunChain(st, signer, raws, sign);
    }
    ParsePrepareData(st.counter + k, raws[k], link);
  }

  /** Every record of a run reads back as its counter, its request data and
      the signature before it, and the run advanced the counter once per record. */
  lemma {:induction false} RunParses(st: ChainState, signer: Signer, raws: seq<seq<byte>>, sign: SignFunction)
    requires st.counter + |raws| < Uint64Limit
    ensures var run := Run(st, signer, raws, sign);
            |run.1| == |raws| && run.0.counter == st.counter + |raws|
    ensures var rs := Run(st, signer, raws, sign).1;
            forall k :: 0 <= k < |raws| ==>
              ParseSignedData(rs[k].signedData) ==
              Some(SignedFields(st.counter + k, raws[k], LinkedSignature(st.lastSig, rs, k)))
  {
    RunChain(st, signer, raws, sign);
    var rs := Run(st, signer, raws, sign).1;
    forall k | 0 <= k < |raws|
      ensures ParseSignedData(rs[k].signedData) ==
              Some(SignedFields(st.counter + k, raws[k], LinkedSignature(st.lastSig, rs, k)))
    {
      RunRecordParses(st, signer, raws, sign, k);
    }
  }

  /** The first record of a run signs the state the run started from, so it
      ends with `_` and the base64 text of the run's starting signature. */
  lemma {:induction false} RunFirstRecord(st: ChainState, signer: Signer, raws: seq<seq<byte>>, sign: SignFunction)
    requires |raws| > 0
    ensures var rs := Run(st, signer, raws, sign).1;
            |rs| > 0 && rs[0].signedData == PrepareData(st.counter, raws[0], st.lastSig)
    ensures var s, e := Run(st, signer, raws, sign).1[0].signedData, Base64.Encode(st.lastSig);
            |s| > |e| && s[|s| - |e| - 1..] == [Underscore] + e
  {
    var (next, r0) := SignStep(st, signer, raws[0], sign);
    assert Run(st, signer, raws, sign).1 == [r0] + Run(next, signer, raws[1..], sign).1;
    LastSigSuffix(st.counter, raws[0], st.lastSig);
  }

  /** A new device's chain: after `n` signings its counter is `n`; the `k`-th
      signed data reads back as counter `k` (so counters run 0, 1, 2, ...
      without gaps or repeats), its request data and the signature before it;
      and the first one links to the base64 text of the identity's base64 text. */
  lemma {:induction false} NewDeviceChain(id: Uuid, signer: Signer, raws: seq<seq<byte>>, sign: SignFunction)
    requires |raws| < Uint64Limit
    ensures var run := Run(InitialState(id), signer, raws, sign);
            |run.1| == |raws| && run.0.counter == |raws|
    ensures var rs := Run(InitialState(id), signer, raws, sign).1;
            forall k :: 0 <= k < |raws| ==>
              ParseSignedData(rs[k].signedData) ==
              Some(SignedFields(k, raws[k], LinkedSignature(Base64.Encode(id), rs, k)))
    ensures var rs := Run(InitialState(id), signer, raws, sign).1;
            |rs| > 0 ==>
              var s, e := rs[0].signedData, Base64.Encode(Base64.Encode(id));
              |s| > |e| && s[|s| - |e| - 1..] == [Underscore] + e
  {
    var st := InitialState(id);
    assert st.counter == 0 && st.lastSig == Base64.Encode(id);
    RunParses(st, signer, raws, sign);
    if |raws| > 0 {
      RunFirstRecord(st, signer, raws, sign);
    }
  }

  /** The first signing of a new device: it signs counter 0 linked to the
      identity's base64 text, and leaves the counter at 1 and the signature
      it got as the last one. */
  lemma {:induction false} SignNewDevice(id: Uuid, signer: Signer, raw: seq<byte>, sign: SignFunction)
    ensures var (after, response) := SignStep(InitialState(id), signer, raw, sign);
            && response.signedData == PrepareData(0, raw, Base64.Encode(id))
            && response.signature == SignatureOf(sign(signer, response.signedData))
            && after.counter == 1 && after.lastSig == response.signature
  {
  }

  /** When the signer fails, the step still advances: the counter moves on
      and the last signature becomes empty, so the next signed data ends in a
      bare `_` with no link to any earlier signature. */
  lemma {:induction false} SignStepOnFailure(st: ChainState, signer: Signer, raw: seq<byte>, next: seq<byte>, sign: SignFunction)
    requires sign(signer, PrepareData(st.counter, raw, st.lastSig)).SignFailed?
    requires st.counter < Uint64Limit - 1
    ensures var (after, response) := SignStep(st, signer, raw, sign);
            && response.signature == [] && after.counter == st.counter + 1 && after.lastSig == []
            && var s := PrepareData(after.counter, next, after.lastSig); s[|s| - 1] == Underscore
  {
  }
}
