/** Signers and the factory that picks one from an algorithm tag. The
    cryptography is abstract: a signer is its kind plus an opaque key pair,
    and signing is a function the caller supplies. */
module Crypto {
  import opened Types

  /** The key pair a signer generates when it is built. Key generation draws
      on an entropy source, so the model takes the pair as given and keeps it
      opaque. */
  datatype KeyPair = KeyPair(handle: nat)

  /** The two signer back-ends. */
  datatype Signer = RsaSigner(keyPair: KeyPair) | EccSigner(keyPair: KeyPair) {

    /** `GetAlgorithm`: the tag each back-end reports, always in upper case. */
    function GetAlgorithm(): (tag: string)
      ensures tag == "RSA" || tag == "ECC"
      ensures tag == "RSA" <==> RsaSigner?
    {
      if RsaSigner? then "RSA" else "ECC"
    }
  }

  /** What a signer's `Sign` returns: the signature bytes, or an error. */
  datatype SignResult = Signed(signature: seq<byte>) | SignFailed(message: string)

  /** The signature slice a caller that ignores the error receives: the
      back-ends return `nil` (no bytes) together with an error. */
  function SignatureOf(r: SignResult): seq<byte> {
    if r.Signed? then r.signature else []
  }

  /** The message of the factory's error. */
  const UnsupportedAlgorithm: string := "unsupported algorithm"

  /** U+0131 LATIN SMALL LETTER DOTLESS I, whose upper case is `I`. */
  const DotlessI: char := 0x131 as char

  /** U+017F LATIN SMALL LETTER LONG S, whose upper case is `S`. */
  const LongS: char := 0x17F as char

  /** Upper-casing of one character: the ASCII letters, and the two non-ASCII
      letters whose upper case is an ASCII letter. Every other character is kept. */
  function UpperChar(c: char): char {
    if 'a' <= c <= 'z' then (c as int - 32) as char
    else if c == DotlessI then 'I'
    else if c == LongS then 'S'
    else c
  }

  /** `strings.ToUpper`, for the characters that can decide the factory's
      outcome: the result holds no lower-case ASCII letter, every ASCII
      character is mapped to ASCII and every character that is not a letter
      with an ASCII upper case is kept. */
  function ToUpper(s: string): (r: string)
    ensures |r| == |s|
    ensures forall i :: 0 <= i < |r| ==> !('a' <= r[i] <= 'z')
    ensures forall i :: 0 <= i < |s| && s[i] as int < 128 ==> r[i] as int < 128
    ensures forall i :: 0 <= i < |s| && !('a' <= s[i] <= 'z') && s[i] != DotlessI && s[i] != LongS ==> r[i] == s[i]
  {
    seq(|s|, i requires 0 <= i < |s| => UpperChar(s[i]))
  }

  /** Upper-casing twice changes nothing more. */
  lemma {:induction false} ToUpperIdempotent(s: string)
    ensures ToUpper(ToUpper(s)) == ToUpper(s)
  {
  }

  /** `SignerFactory`: upper-case the tag, then pick the back-end; every other
      tag is refused. `keyPair` stands for the fresh key pair the chosen
      back-end generates. */
  function SignerFactory(algorithm: string, keyPair: KeyPair): (r: Result<Signer, string>)
    ensures r.Success? <==> ToUpper(algorithm) == "RSA" || ToUpper(algorithm) == "ECC"
    ensures r.Success? ==> r.value.GetAlgorithm() == ToUpper(algorithm) && r.value.keyPair == keyPair
    ensures r.Failure? ==> r.error == UnsupportedAlgorithm
  {
    var tag := ToUpper(algorithm);
    if tag == "RSA" then Success(RsaSigner(keyPair))
    else if tag == "ECC" then Success(EccSigner(keyPair))
    else Failure(UnsupportedAlgorithm)
  }

  /** `c` is the upper-case ASCII letter `u` itself or one of its lower-case
      forms: the ASCII one, and `ı` for `I` and `ſ` for `S`. */
  predicate SpellsLetter(c: char, u: char) {
    c == u || ('A' <= u <= 'Z' && c as int == u as int + 32) || (u == 'I' && c == DotlessI) || (u == 'S' && c == LongS)
  }

  /** `a` spells the upper-case word `w` with each letter in any of its cases. */
  predicate IsCaseVariant(a: string, w: string) {
    |a| == |w| && forall i :: 0 <= i < |a| ==> SpellsLetter(a[i], w[i])
  }

  /** For an upper-case word, upper-casing a tag yields it exactly when the tag
      is one of its case variants. */
  lemma {:induction false} ToUpperIsCaseVariant(a: string, w: string)
    requires forall i :: 0 <= i < |w| ==> 'A' <= w[i] <= 'Z'
    ensures ToUpper(a) == w <==> IsCaseVariant(a, w)
  {
    if ToUpper(a) == w {
      forall i | 0 <= i < |a|
        ensures SpellsLetter(a[i], w[i])
      {
        assert UpperChar(a[i]) == w[i];
      }
    }
    if IsCaseVariant(a, w) {
      assert forall i :: 0 <= i < |a| ==> ToUpper(a)[i] == w[i];
    }
  }

  /** Case-insensitive dispatch: a tag spelling RSA in any mix of cases gives an
      RSA signer, one spelling ECC an ECC signer, and every other tag the
      "unsupported algorithm" error and no signer. */
  lemma {:induction false} SignerFactoryDispatch(algorithm: string, keyPair: KeyPair)
    ensures IsCaseVariant(algorithm, "RSA") <==> SignerFactory(algorithm, keyPair) == Success(RsaSigner(keyPair))
    ensures IsCaseVariant(algorithm, "ECC") <==> SignerFactory(algorithm, keyPair) == Success(EccSigner(keyPair))
    ensures !IsCaseVariant(algorithm, "RSA") && !IsCaseVariant(algorithm, "ECC") <==>
            SignerFactory(algorithm, keyPair) == Failure(UnsupportedAlgorithm)
  {
    ToUpperIsCaseVariant(algorithm, "RSA");
    ToUpperIsCaseVariant(algorithm, "ECC");
  }

  /** The outcome depends on the tag only through its upper-case form. */
  lemma {:induction false} SignerFactoryCaseInsensitive(a: string, b: string, keyPair: KeyPair)
    requires ToUpper(a) == ToUpper(b)
    ensures SignerFactory(a, keyPair) == SignerFactory(b, keyPair)
  {
  }

  /** The signer reports its tag in upper case whatever the case of the request. */
  lemma {:induction false} SignerFactoryReportsUpperCase(algorithm: string, keyPair: KeyPair)
    requires SignerFactory(algorithm, keyPair).Success?
    ensures var tag := SignerFactory(algorithm, keyPair).value.GetAlgorithm();
            ToUpper(tag) == tag && ToUpper(algorithm) == tag
  {
  }

  /** The factory's test cases: "rsa", "ECC" and "XYZ"; and "rſa", whose long
      s upper-cases to `S`. */
  lemma {:induction false} SignerFactoryExamples(keyPair: KeyPair)
    ensures SignerFactory("rsa", keyPair) == Success(RsaSigner(keyPair))
    ensures SignerFactory("ECC", keyPair) == Success(EccSigner(keyPair))
    ensures SignerFactory("XYZ", keyPair) == Failure(UnsupportedAlgorithm)
    ensures SignerFactory(['r', LongS, 'a'], keyPair) == Success(RsaSigner(keyPair))
  {
    assert ToUpper("rsa") == "RSA";
    assert ToUpper("ECC") == "ECC";
    assert ToUpper("XYZ")[0] == 'X';
    assert ToUpper(['r', LongS, 'a']) == "RSA";
  }
}
