# signing-service: a Dafny model of the signature chain

The signing service manages *signature devices*. A device has a UUID identity, a label, an algorithm tag
(RSA or ECC), a signer for that algorithm, a signature counter and the last signature it produced. To sign,
the service builds canonical *signed data* from three parts joined by `_`:

- the device's counter in decimal;
- the request data, verbatim;
- the base64 text of the device's last signature.

It signs those bytes and records the new signature in the device, which also adds one to the counter.
So each signature is chained to the one before it. A new device starts with counter 0. Its "last
signature" is the base64 text of its identity's 16 raw bytes. Devices live in an in-memory registry
keyed by identity. A factory picks the signer back-end from the requested tag, ignoring case.

The project models these parts:

- `Types.dfy`: Go's `byte` and `uint64`, and the Option and Result wrappers.
- `Base64.dfy`: standard padded base64 (alphabet, encoder, strict decoder). `EncodeInto` fills a
  buffer in place the way `base64.StdEncoding.Encode` does.
- `Decimal.dfy`: `strconv.FormatUint(n, 10)` and a parser for canonical decimal text.
- `Uuid.dfy`: the 16 raw bytes of an identity and its 8-4-4-4-12 text form.
- `Crypto.dfy`: the two signer back-ends, their `GetAlgorithm`, `strings.ToUpper` for the characters
  that can decide the factory's outcome, and `SignerFactory`.
- `Domain.dfy`: the `SignatureDevice` class (`NewSignatureDevice` as its constructor, and
  `SetLastSignature`), plus the chain state on values.
- `Persistence.dfy`: the `InMemoryDB` class (`GetInMemoryDB` as its constructor, then `Set`, `Get` and
  `GetAll`) over a map field.
- `Api.dfy`: `PrepareData`, a reader `ParseSignedData` for the fields of signed data, and the sign step
  of `SignData` as a module-level method that takes the registry as a parameter. It also has device creation as `CreateSignatureDevice`
  does it, and the chain that a run of sign steps produces.

`ParseSignedData` appears nowhere in the service. It is the independent partner of `PrepareData`: it
splits at the first and the last `_`, so request data that contains `_` still reads back.

## Model

| member | source | states |
|---|---|---|
| Api.PrepareData | api/device.go:104-110 | Definition: the decimal counter, `_`, the data, `_` and the base64 text of the last signature. Its properties are the lemmas in the rows below it. |
| Api.ParsePrepareData | api/device.go:104-110 | The signed data reads back as exactly the counter, the request data and the previous signature it was built from, even when the data contains `_`. |
| Api.PrepareParseSignedData | api/device.go:104-110 | Conversely, any bytes that read back as fields (with a counter that fits a uint64) are the signed data of those fields. So the format and the reader are inverses. |
| Api.PrepareDataInjective | api/device.go:104-110 | Different (counter, data, last signature) triples never produce the same signed data. |
| Api.CounterPrefix | api/device.go:106 | The text before the first `_` is the decimal counter, and it parses back to the counter. |
| Api.LastSigSuffix | api/device.go:107 | The signed data ends in the last `_` followed by the base64 text of the previous signature, and that text decodes back to the signature. |
| Api.PrepareDataLength | api/device.go:104-110 | The length is the number of counter digits, plus the data length, plus 2 separators, plus 4 * ceil(len(lastSig) / 3). |
| Api.PrepareDataExample | api/device_test.go:51-57 | Counter 123, data "Hello World!" and last signature "42" give "123_Hello World!_NDI=". |
| Api.SignStep | api/device.go:91-93 | Definition on values: sign `PrepareData` of the current state and advance the chain with what came back. `Api.SignData` is proved equal to it. |
| Api.SignData | api/device.go:90-98 | The device's counter and last signature are signed. The signer is asked for exactly those bytes. The counter goes up by one (wrapping at 2^64). The returned signature becomes the last one. Identity, label, algorithm and signer are unchanged. The registry map and every other device's chain are untouched. The step agrees with `SignStep`. |
| Api.SignNewDevice | api/device_test.go:29-49 | A new device's first signing signs counter 0, linked to the base64 text of the identity. Afterwards the counter is 1 and the last signature is the one returned. |
| Api.SignStepOnFailure | api/device.go:92-93 | When the signer fails, the counter still advances and the last signature becomes empty. The next signed data then ends in a bare `_`. |
| Api.CreateSignatureDevice | api/device.go:57-63 | An unsupported tag returns the factory's error and leaves the registry unchanged. Otherwise a fresh device is registered under its identity. It carries the default label, the tag verbatim, the factory's signer and counter 0 with the identity's base64 text. |
| Api.Run | api/device.go:90-98 | Definition: one `SignStep` per request, in order, on one device. Its properties are `Api.RunChain`, `Api.RunParses`, `Api.RunFirstRecord` and `Api.NewDeviceChain`. |
| Api.RunChain | api/device.go:90-98 | After n signings from a state, the counter has grown by n. The k-th signing signs counter `start + k` linked to the signature before it. Each signature is the signer's answer for its own signed data. The last signature is the last one returned. |
| Api.RunParses | api/device.go:90-98 | Every record of such a run reads back as its counter, its request data and the signature of the record before it. |
| Api.RunFirstRecord | api/device.go:91 | The first record of a run signs the starting state: it ends with `_` and the base64 text of the starting signature. |
| Api.NewDeviceChain | domain/device.go:20-35 | For a new device, after n signings the counter is n. The k-th record reads back as counter k (0, 1, 2, … with no gaps or repeats), its data and the signature before it. The first record links to the base64 text of the identity's base64 text. |
| Domain.SignatureDevice.constructor | domain/device.go:20-29 | The identity is the given one and the label is the default label. The algorithm and signer are stored verbatim. The counter is 0 and the last signature is the 24-character base64 text of the identity's 16 bytes. |
| Domain.SignatureDevice.SetLastSignature | domain/device.go:32-35 | The counter is incremented with uint64 wrap-around (exactly +1 below the maximum). The last signature is the given one. No other field changes. |
| Domain.Increment | domain/device.go:33 | Definition: `+= 1` on a uint64. Its meaning is `Domain.IncrementWraps`. |
| Domain.IncrementWraps | domain/device.go:33 | Increment is addition of one modulo 2^64, as Go's unsigned `+` is. It gives 0 exactly after 2^64 - 1, and c + 1 below it. |
| Domain.Advance | domain/device.go:32-35 | Definition: `SetLastSignature` on values. The method is proved equal to it, and `Domain.AdvanceMany` states n of them. |
| Domain.InitialState | domain/device.go:22-23 | A new chain has counter 0 and a 24-byte last signature that decodes back to the identity. |
| Domain.IdEncoding | domain/device.go:22-23 | The base64 text of 16 bytes is 24 characters long and decodes back to those bytes. |
| Domain.DefaultLabel | domain/device.go:24-26 | A non-empty requested label is kept. An empty one is replaced by the identity's 36-character text form. |
| Domain.AdvanceMany | domain/device.go:32-35 | n calls of `SetLastSignature` from a counter with room add exactly n to it and leave the last given signature. |
| Persistence.InMemoryDB.constructor | persistence/inmemory.go:18-24 | A new registry has no entries. |
| Persistence.InMemoryDB.Set | persistence/inmemory.go:27-31 | The key maps to the device, replacing any earlier entry. Every other key keeps its entry, and the key set gains exactly the key. |
| Persistence.InMemoryDB.Get | persistence/inmemory.go:34-39 | It returns ok exactly when the key is present, with the stored device, or null otherwise. The registry is not changed. |
| Persistence.InMemoryDB.GetAll | persistence/inmemory.go:42-52 | It returns one device per entry: each entry exactly once, and nothing that is not stored. |
| Crypto.SignerFactory | crypto/signer_factory.go:9-20 | It succeeds exactly when the upper-cased tag is RSA or ECC. The signer then reports that tag and uses the given key pair. Otherwise it fails with "unsupported algorithm". |
| Crypto.SignerFactoryDispatch | crypto/signer_factory.go:11-18 | Any mix of cases spelling RSA gives an RSA signer, and likewise ECC gives an ECC signer. Every other tag gives the error and no signer. Each is an if-and-only-if. |
| Crypto.SignerFactoryCaseInsensitive | crypto/signer_factory.go:11 | Tags with the same upper-case form get the same outcome. |
| Crypto.SignerFactoryReportsUpperCase | crypto/signer_factory.go:11-16 | A created signer reports its algorithm in upper case, equal to the upper-cased request. |
| Crypto.SignerFactoryExamples | crypto/signer_test.go:56-78 | "rsa" gives an RSA signer, "ECC" an ECC signer, and "XYZ" the unsupported-algorithm error. "rſa" (long s) also gives an RSA signer, as Go's upper-casing maps ſ to S. |
| Crypto.Signer.GetAlgorithm | crypto/signer.go:69-71 | The RSA back-end reports "RSA" (crypto/signer.go:69-71) and the ECC back-end reports "ECC" (crypto/signer.go:120-122). |
| Crypto.SignatureOf | api/device.go:92 | Definition: the bytes the handler keeps when it drops `Sign`'s error. The back-ends return nil on failure (crypto/signer.go:44 and 85), so a failure leaves no bytes. `Api.SignStepOnFailure` states the consequence. |
| Crypto.ToUpper | crypto/signer_factory.go:11 | Same length. The result holds no lower-case ASCII letter. ASCII stays ASCII. Every character other than a lower-case letter with an ASCII upper case is kept. |
| Crypto.ToUpperIsCaseVariant | crypto/signer_factory.go:11 | For an upper-case ASCII word, upper-casing a tag yields the word exactly when the tag spells it with each letter in any of its cases (ASCII lower case, ı for I, ſ for S). |
| Crypto.ToUpperIdempotent | crypto/signer_factory.go:11 | Upper-casing twice is the same as once. |
| Base64.Encode | api/device.go:107 | Definition: standard padded base64 (`EncodeToString`), group by group. Its properties are the Base64 lemmas below. |
| Base64.EncodedLen | domain/device.go:22 | Definition: `EncodedLen(n)` = 4 * ((n + 2) / 3). `Base64.EncodeLength` proves that the encoding has this length. |
| Base64.EncodeInto | domain/device.go:22-23 | Filling a buffer of `EncodedLen` bytes in place leaves exactly the base64 text of the source in it. |
| Base64.DecodeEncode | domain/device.go:23 | Decoding the base64 text gives back the bytes. |
| Base64.EncodeDecode | api/device.go:107 | Whatever decodes is the canonical encoding of its result, so encoder and decoder are inverses. |
| Base64.EncodeInjective | api/device.go:107 | Different byte strings have different base64 texts. |
| Base64.EncodeLength | domain/device.go:22 | The text is `EncodedLen(n)` = 4 * ceil(n / 3) characters long. |
| Base64.EncodeHasNoUnderscore | api/device.go:106-107 | Base64 text never contains `_`, so `_` can delimit it. |
| Base64.EncodeExample | api/device_test.go:53 | "42" encodes to "NDI=", and "f", "fo", "foo" encode to "Zg==", "Zm8=", "Zm9v" (section 10 of RFC 4648). |
| Decimal.FormatUint | api/device.go:106 | Definition: `strconv.FormatUint(n, 10)`, most significant digit first. Its properties are the Decimal lemmas below. |
| Decimal.ParseFormatUint | api/device.go:106 | The decimal text of a counter parses back to the counter. |
| Decimal.FormatParseUint | api/device.go:106 | Any text that parses is exactly the decimal text of its value. |
| Decimal.FormatUintIsCanonical | api/device.go:106 | The decimal text is non-empty digits with no leading zero, and in particular holds no `_`. |
| Decimal.FormatUintInjective | api/device.go:106 | Different counters have different decimal texts. |
| Decimal.FormatUintExample | api/device_test.go:52 | 0 is written "0" and 123 is written "123". |
| Uuid.String | domain/device.go:25 | Definition: `id.String()`, lower-case hexadecimal in groups 8-4-4-4-12. Its properties are `Uuid.StringFormat` and `Uuid.StringInjective`. |
| Uuid.StringFormat | domain/device.go:24-26 | The text form of an identity is 36 characters: dashes exactly at 8, 13, 18 and 23 and hexadecimal digits elsewhere. So a default label is never empty. |
| Uuid.StringInjective | domain/device.go:24-26 | Different identities have different text forms. So default labels of different devices differ. |

## Left out

- Cryptography (crypto/signer.go): RSA and ECDSA signing, verification, public keys and key generation.
  A signer is its back-end plus an opaque key pair. `Sign` is a function the caller passes in, and the
  bytes it returns are passed through unchanged. What is not modelled is how those bytes are computed,
  and that both back-ends return the base64 text of the raw signature (crypto/signer.go:46-48 and
  89-92).
- Randomness: the key pair and the identity `uuid.New()` would draw are parameters.
- Library code is written from its documented format rather than taken from the package:
  `uuid.UUID.String`, `encoding/base64` and `strconv.FormatUint`.
- HTTP and JSON: request decoding, response writing, status codes, the `PublicKey` field of the
  creation response, and the `GetDevices` and `GetDevice` handlers (they only read the registry and
  serialise it).
- Concurrency: the registry's `sync.RWMutex`, and the lack of any lock on a device. The source has no
  lock in domain/device.go. The sign handler reads the counter and last signature and writes them back
  unguarded (api/device.go:90-93). So two concurrent signings of one device can sign the same counter,
  and one of the updates can be lost. Every operation is modelled as if it ran alone. `Api.RunChain` and
  `Api.NewDeviceChain` ("no gaps or repeats") hold for signings made one after another, not for
  concurrent requests to the HTTP server.
- `GetInMemoryDB` builds a new, empty registry on every call, as the constructor does. It also stores
  that registry in the package variable `db`. That write is left out, because nothing in the modelled
  code reads the variable.
- Crypto.ToUpper: besides the ASCII letters, only ı (U+0131) and ſ (U+017F) are upper-cased, since they
  are the only non-ASCII characters whose upper case is an ASCII letter. Every other character is kept as
  it is, while Go would upper-case non-ASCII letters such as é. So the factory's outcome, which only
  compares the result with "RSA" and "ECC", is the same as Go's, but the upper-cased text itself can
  differ.
- Api.SignData: requires the device to be registered. The handler ignores the lookup's `ok` and would
  dereference a nil device, which is a crash, not a result the model could give.
- Api.SignData: slices are values, so the aliasing of Go's `[]byte` between the response and the
  device is not modelled.
- Persistence.InMemoryDB.GetAll: Go's map iteration order is unspecified. The model fixes no order;
  its ghost `keys` only say which entry each element came from.
- domain/device_test.go calls `NewSignatureDevice` with two arguments, which no longer matches the
  source. It is not part of this model.
