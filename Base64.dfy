/** Standard, padded base64 (the alphabet of section 4 of RFC 4648), as
    Go's `base64.StdEncoding` produces it. The encoder is what the service
    uses; the strict decoder is its inverse, used to state round trips. */
module Base64 {
  import opened Types

  /** The padding character `=`. */
  const Pad: byte := 61

  /** The character of the standard alphabet for the 6-bit value `i`:
      `A`-`Z`, `a`-`z`, `0`-`9`, `+`, `/`. */
  function Char(i: int): (c: byte)
    requires 0 <= i < 64
  {
    if i < 26 then 65 + i
    else if i < 52 then 97 + (i - 26)
    else if i < 62 then 48 + (i - 52)
    else if i == 62 then 43
    else 47
  }

  predicate IsAlphabet(c: byte) {
    (65 <= c <= 90) || (97 <= c <= 122) || (48 <= c <= 57) || c == 43 || c == 47
  }

  /** The 6-bit value that an alphabet character stands for. */
  function Index(c: byte): (i: int)
    requires IsAlphabet(c)
    ensures 0 <= i < 64 && Char(i) == c
  {
    if 65 <= c <= 90 then c - 65
    else if 97 <= c <= 122 then c - 97 + 26
    else if 48 <= c <= 57 then c - 48 + 52
    else if c == 43 then 62
    else 63
  }

  lemma {:induction false} CharIsAlphabet(i: int)
    requires 0 <= i < 64
    ensures IsAlphabet(Char(i)) && Index(Char(i)) == i
  {
  }

  /** Three input bytes become four characters. */
  function EncodeBlock(a: byte, b: byte, c: byte): seq<byte> {
    [Char(a / 4), Char((a % 4) * 16 + b / 16), Char((b % 16) * 4 + c / 64), Char(c % 64)]
  }

  /** A final single byte: two characters and two pads. */
  function EncodeTail1(a: byte): seq<byte> {
    [Char(a / 4), Char((a % 4) * 16), Pad, Pad]
  }

  /** A final pair of bytes: three characters and one pad. */
  function EncodeTail2(a: byte, b: byte): seq<byte> {
    [Char(a / 4), Char((a % 4) * 16 + b / 16), Char((b % 16) * 4), Pad]
  }

  /** `base64.StdEncoding.EncodeToString`. */
  function Encode(s: seq<byte>): seq<byte>
    decreases |s|
  {
    if |s| == 0 then []
    else if |s| == 1 then EncodeTail1(s[0])
    else if |s| == 2 then EncodeTail2(s[0], s[1])
    else EncodeBlock(s[0], s[1], s[2]) + Encode(s[3..])
  }

  /** `base64.StdEncoding.EncodedLen`: four characters per started group of three bytes. */
  function EncodedLen(n: nat): nat {
    (n + 2) / 3 * 4
  }

  /** The three bytes that four alphabet characters stand for. */
  function DecodeBlock(c0: byte, c1: byte, c2: byte, c3: byte): Option<seq<byte>> {
    if IsAlphabet(c0) && IsAlphabet(c1) && IsAlphabet(c2) && IsAlphabet(c3) then
      var i0, i1, i2, i3 := Index(c0), Index(c1), Index(c2), Index(c3);
      Some([i0 * 4 + i1 / 16, (i1 % 16) * 16 + i2 / 4, (i2 % 4) * 64 + i3])
    else None
  }

  /** The last group of four characters, which may end in one or two pads;
      the bits a pad leaves unused must be zero. */
  function DecodeLast(c0: byte, c1: byte, c2: byte, c3: byte): Option<seq<byte>> {
    if c2 == Pad && c3 == Pad then
      if IsAlphabet(c0) && IsAlphabet(c1) && Index(c1) % 16 == 0 then
        Some([Index(c0) * 4 + Index(c1) / 16])
      else None
    else if c3 == Pad then
      if IsAlphabet(c0) && IsAlphabet(c1) && IsAlphabet(c2) && Index(c2) % 4 == 0 then
        var i1 := Index(c1);
        Some([Index(c0) * 4 + i1 / 16, (i1 % 16) * 16 + Index(c2) / 4])
      else None
    else DecodeBlock(c0, c1, c2, c3)
  }

  /** Strict decoding: the length is a multiple of four, every group is made
      of alphabet characters and only the last group may carry padding. */
  function Decode(t: seq<byte>): Option<seq<byte>>
    decreases |t|
  {
    if |t| == 0 then Some([])
    else if |t| < 4 then None
    else if |t| == 4 then DecodeLast(t[0], t[1], t[2], t[3])
    else match DecodeBlock(t[0], t[1], t[2], t[3])
      case None => None
      case Some(head) =>
        match Decode(t[4..])
        case None => None
        case Some(rest) => Some(head + rest)
  }

  // ---------------------------------------------------------------------
  // Properties of the encoder
  // ---------------------------------------------------------------------

  /** The encoding is as long as `EncodedLen` says: 4 * ceil(n / 3). */
  lemma {:induction false} EncodeLength(s: seq<byte>)
    ensures |Encode(s)| == EncodedLen(|s|)
    decreases |s|
  {
    if |s| >= 3 {
      EncodeLength(s[3..]);
    }
  }

  /** Every character of an encoding is an alphabet character or a pad. */
  lemma {:induction false} EncodeCharacters(s: seq<byte>)
    ensures forall k :: 0 <= k < |Encode(s)| ==> IsAlphabet(Encode(s)[k]) || Encode(s)[k] == Pad
    decreases |s|
  {
    if |s| >= 3 {
      EncodeCharacters(s[3..]);
      var e := Encode(s);
      assert e == EncodeBlock(s[0], s[1], s[2]) + Encode(s[3..]);
      forall k | 0 <= k < |e| ensures IsAlphabet(e[k]) || e[k] == Pad {
        if k >= 4 {
          assert e[k] == Encode(s[3..])[k - 4];
        }
      }
    }
  }

  /** An encoding never contains `_`, so `_` can delimit it. */
  lemma {:induction false} EncodeHasNoUnderscore(s: seq<byte>)
    ensures forall k :: 0 <= k < |Encode(s)| ==> Encode(s)[k] != Underscore
  {
    EncodeCharacters(s);
  }

  /** Dropping whole groups of three input bytes drops whole groups of four characters. */
  lemma {:induction false} EncodeDrop(s: seq<byte>, i: nat)
    requires 3 * i <= |s|
    ensures 4 * i <= |Encode(s)| && Encode(s)[4 * i..] == Encode(s[3 * i..])
    decreases i
  {
    if i > 0 {
      assert Encode(s) == EncodeBlock(s[0], s[1], s[2]) + Encode(s[3..]);
      EncodeDrop(s[3..], i - 1);
      assert s[3..][3 * (i - 1)..] == s[3 * i..];
    }
  }

  /** The `i`-th group of four characters encodes the `i`-th group of three bytes. */
  lemma {:induction false} EncodeAt(s: seq<byte>, i: nat)
    requires 3 * i + 3 <= |s|
    ensures 4 * i + 4 <= |Encode(s)|
    ensures Encode(s)[4 * i..4 * i + 4] == EncodeBlock(s[3 * i], s[3 * i + 1], s[3 * i + 2])
  {
    EncodeDrop(s, i);
    var t := s[3 * i..];
    assert Encode(t) == EncodeBlock(t[0], t[1], t[2]) + Encode(t[3..]);
  }

  /** The final, padded group when the length is not a multiple of three. */
  lemma {:induction false} EncodeEnd(s: seq<byte>)
    requires |s| % 3 != 0
    ensures 4 * (|s| / 3) + 4 == |Encode(s)|
    ensures Encode(s)[4 * (|s| / 3)..] ==
      if |s| % 3 == 1 then EncodeTail1(s[|s| - 1]) else EncodeTail2(s[|s| - 2], s[|s| - 1])
  {
    EncodeDrop(s, |s| / 3);
  }

  // ---------------------------------------------------------------------
  // Round trips
  // ---------------------------------------------------------------------

  /** Splitting `hi * k + lo` back into its two digits, for the radixes used here. */
  lemma {:induction false} Split(hi: int, lo: int, k: int)
    requires k == 4 || k == 16 || k == 64
    requires 0 <= hi && 0 <= lo < k
    ensures (hi * k + lo) / k == hi && (hi * k + lo) % k == lo
  {
    if k == 4 {
      assert hi * 4 + lo == 4 * hi + lo;
    } else if k == 16 {
      assert hi * 16 + lo == 16 * hi + lo;
    } else {
      assert hi * 64 + lo == 64 * hi + lo;
    }
  }

  /** The four 6-bit values of a group recombine into its three bytes. */
  lemma {:induction false} Recombine(a: byte, b: byte, c: byte)
    ensures var x1, x2 := (a % 4) * 16 + b / 16, (b % 16) * 4 + c / 64;
            (a / 4) * 4 + x1 / 16 == a && (x1 % 16) * 16 + x2 / 4 == b && (x2 % 4) * 64 + c % 64 == c
  {
    Split(a % 4, b / 16, 16);
    Split(b % 16, c / 64, 4);
  }

  lemma {:induction false} BlockRoundTrip(a: byte, b: byte, c: byte)
    ensures DecodeBlock(Char(a / 4), Char((a % 4) * 16 + b / 16), Char((b % 16) * 4 + c / 64), Char(c % 64))
            == Some([a, b, c])
  {
    var x0, x1, x2, x3 := a / 4, (a % 4) * 16 + b / 16, (b % 16) * 4 + c / 64, c % 64;
    CharIsAlphabet(x0);
    CharIsAlphabet(x1);
    CharIsAlphabet(x2);
    CharIsAlphabet(x3);
    Recombine(a, b, c);
  }

  lemma {:induction false} Tail1RoundTrip(a: byte)
    ensures Decode(EncodeTail1(a)) == Some([a])
  {
    CharIsAlphabet(a / 4);
    CharIsAlphabet((a % 4) * 16);
    Split(a % 4, 0, 16);
  }

  lemma {:induction false} Tail2RoundTrip(a: byte, b: byte)
    ensures Decode(EncodeTail2(a, b)) == Some([a, b])
  {
    CharIsAlphabet(a / 4);
    CharIsAlphabet((a % 4) * 16 + b / 16);
    CharIsAlphabet((b % 16) * 4);
    Split(a % 4, b / 16, 16);
    Split(b % 16, 0, 4);
    var e := EncodeTail2(a, b);
    assert DecodeLast(e[0], e[1], e[2], e[3]) == Some([a, b]);
  }

  /** A group without padding in front of a decodable rest. */
  lemma {:induction false} DecodeCons(g: seq<byte>, rest: seq<byte>)
    requires |g| == 4 && IsAlphabet(g[2]) && IsAlphabet(g[3])
    requires DecodeBlock(g[0], g[1], g[2], g[3]).Some? && Decode(rest).Some?
    ensures Decode(g + rest) == Some(DecodeBlock(g[0], g[1], g[2], g[3]).value + Decode(rest).value)
  {
    var t := g + rest;
    if |rest| == 0 {
      assert t == g;
      assert g[3] != Pad;
      assert Decode(t) == DecodeBlock(g[0], g[1], g[2], g[3]);
      assert DecodeBlock(g[0], g[1], g[2], g[3]).value + [] == DecodeBlock(g[0], g[1], g[2], g[3]).value;
    } else {
      assert t[4..] == rest;
    }
  }

  /** What the round trip needs to know of one encoded group. */
  lemma {:induction false} BlockFacts(a: byte, b: byte, c: byte)
    ensures var g := EncodeBlock(a, b, c);
            |g| == 4 && IsAlphabet(g[2]) && IsAlphabet(g[3]) && DecodeBlock(g[0], g[1], g[2], g[3]) == Some([a, b, c])
  {
    BlockRoundTrip(a, b, c);
    CharIsAlphabet((b % 16) * 4 + c / 64);
    CharIsAlphabet(c % 64);
  }

  lemma {:induction false} SplitThree(s: seq<byte>)
    requires |s| >= 3
    ensures s == [s[0], s[1], s[2]] + s[3..]
  {
  }

  lemma {:induction false} DecodeEncodeStep(s: seq<byte>)
    requires |s| >= 3 && Decode(Encode(s[3..])) == Some(s[3..])
    ensures Decode(Encode(s)) == Some(s)
  {
    SplitThree(s);
    var g := EncodeBlock(s[0], s[1], s[2]);
    assert Encode(s) == g + Encode(s[3..]);
    BlockFacts(s[0], s[1], s[2]);
    DecodeCons(g, Encode(s[3..]));
  }

  /** Decoding an encoding gives back the bytes. */
  lemma {:induction false} DecodeEncode(s: seq<byte>)
    ensures Decode(Encode(s)) == Some(s)
    decreases |s|
  {
    if |s| == 1 {
      Tail1RoundTrip(s[0]);
      assert s == [s[0]];
    } else if |s| == 2 {
      Tail2RoundTrip(s[0], s[1]);
      assert s == [s[0], s[1]];
    } else if |s| >= 3 {
      DecodeEncode(s[3..]);
      DecodeEncodeStep(s);
    }
  }

  /** Three bytes split back into the four 6-bit values they were made of. */
  lemma {:induction false} Resplit(i0: int, i1: int, i2: int, i3: int)
    requires 0 <= i0 < 64 && 0 <= i1 < 64 && 0 <= i2 < 64 && 0 <= i3 < 64
    ensures var a, b, c := i0 * 4 + i1 / 16, (i1 % 16) * 16 + i2 / 4, (i2 % 4) * 64 + i3;
            a / 4 == i0 && (a % 4) * 16 + b / 16 == i1 && (b % 16) * 4 + c / 64 == i2 && c % 64 == i3
  {
    Split(i0, i1 / 16, 4);
    Split(i1 % 16, i2 / 4, 16);
    Split(i2 % 4, i3, 64);
  }

  lemma {:induction false} BlockCanonical(c0: byte, c1: byte, c2: byte, c3: byte)
    requires DecodeBlock(c0, c1, c2, c3).Some?
    ensures var v := DecodeBlock(c0, c1, c2, c3).value;
            |v| == 3 && EncodeBlock(v[0], v[1], v[2]) == [c0, c1, c2, c3]
  {
    var i0, i1, i2, i3 := Index(c0), Index(c1), Index(c2), Index(c3);
    var v := DecodeBlock(c0, c1, c2, c3).value;
    assert v == [i0 * 4 + i1 / 16, (i1 % 16) * 16 + i2 / 4, (i2 % 4) * 64 + i3];
    Resplit(i0, i1, i2, i3);
    assert EncodeBlock(v[0], v[1], v[2]) == [Char(i0), Char(i1), Char(i2), Char(i3)];
  }

  lemma {:induction false} Tail1Canonical(i0: int, i1: int)
    requires 0 <= i0 < 64 && 0 <= i1 < 64 && i1 % 16 == 0
    ensures var a := i0 * 4 + i1 / 16; a / 4 == i0 && (a % 4) * 16 == i1
  {
    Split(i0, i1 / 16, 4);
  }

  lemma {:induction false} Tail2Canonical(i0: int, i1: int, i2: int)
    requires 0 <= i0 < 64 && 0 <= i1 < 64 && 0 <= i2 < 64 && i2 % 4 == 0
    ensures var a, b := i0 * 4 + i1 / 16, (i1 % 16) * 16 + i2 / 4;
            a / 4 == i0 && (a % 4) * 16 + b / 16 == i1 && (b % 16) * 4 == i2
  {
    Split(i0, i1 / 16, 4);
    Split(i1 % 16, i2 / 4, 16);
  }

  lemma {:induction false} Tail1Last(c0: byte, c1: byte)
    requires DecodeLast(c0, c1, Pad, Pad).Some?
    ensures var v := DecodeLast(c0, c1, Pad, Pad).value; |v| == 1 && Encode(v) == [c0, c1, Pad, Pad]
  {
    var v := DecodeLast(c0, c1, Pad, Pad).value;
    Tail1Canonical(Index(c0), Index(c1));
    assert Encode(v) == EncodeTail1(v[0]);
  }

  lemma {:induction false} Tail2Last(c0: byte, c1: byte, c2: byte)
    requires c2 != Pad && DecodeLast(c0, c1, c2, Pad).Some?
    ensures var v := DecodeLast(c0, c1, c2, Pad).value; |v| == 2 && Encode(v) == [c0, c1, c2, Pad]
  {
    var v := DecodeLast(c0, c1, c2, Pad).value;
    Tail2Canonical(Index(c0), Index(c1), Index(c2));
    assert Encode(v) == EncodeTail2(v[0], v[1]);
  }

  lemma {:induction false} BlockLast(c0: byte, c1: byte, c2: byte, c3: byte)
    requires c3 != Pad && DecodeLast(c0, c1, c2, c3).Some?
    ensures var v := DecodeLast(c0, c1, c2, c3).value; |v| == 3 && Encode(v) == [c0, c1, c2, c3]
  {
    assert DecodeLast(c0, c1, c2, c3) == DecodeBlock(c0, c1, c2, c3);
    var v := DecodeBlock(c0, c1, c2, c3).value;
    BlockCanonical(c0, c1, c2, c3);
    assert Encode(v) == EncodeBlock(v[0], v[1], v[2]) + Encode(v[3..]);
  }

  lemma {:induction false} LastCanonical(c0: byte, c1: byte, c2: byte, c3: byte)
    requires DecodeLast(c0, c1, c2, c3).Some?
    ensures var v := DecodeLast(c0, c1, c2, c3).value;
            1 <= |v| <= 3 && Encode(v) == [c0, c1, c2, c3]
  {
    if c3 != Pad {
      BlockLast(c0, c1, c2, c3);
    } else if c2 == Pad {
      Tail1Last(c0, c1);
    } else {
      Tail2Last(c0, c1, c2);
    }
  }

  /** Decoding accepts only canonical encodings: whatever decodes, encodes back
      to the very same characters. So `Encode` and `Decode` are mutual inverses. */
  lemma {:induction false} EncodeDecode(t: seq<byte>)
    requires Decode(t).Some?
    ensures Encode(Decode(t).value) == t
    decreases |t|
  {
    if |t| == 4 {
      LastCanonical(t[0], t[1], t[2], t[3]);
    } else if |t| > 4 {
      EncodeDecode(t[4..]);
      EncodeDecodeStep(t);
    }
  }

  /** One step of `EncodeDecode`: a leading unpadded group in front of a
      canonical rest. */
  lemma {:induction false} EncodeDecodeStep(t: seq<byte>)
    requires |t| > 4 && Decode(t).Some? && Decode(t[4..]).Some?
    requires Encode(Decode(t[4..]).value) == t[4..]
    ensures Encode(Decode(t).value) == t
  {
    var head := DecodeBlock(t[0], t[1], t[2], t[3]).value;
    var rest := Decode(t[4..]).value;
    assert Decode(t).value == head + rest;
    BlockCanonical(t[0], t[1], t[2], t[3]);
    var v := head + rest;
    assert v[3..] == rest;
    assert Encode(v) == EncodeBlock(v[0], v[1], v[2]) + Encode(v[3..]);
    assert t == t[..4] + t[4..];
  }

  /** Encoding is injective. */
  lemma {:induction false} EncodeInjective(s: seq<byte>, s': seq<byte>)
    requires Encode(s) == Encode(s')
    ensures s == s'
  {
    DecodeEncode(s);
    DecodeEncode(s');
  }

  // ---------------------------------------------------------------------
  // In-place encoding into a buffer
  // ---------------------------------------------------------------------

  /** Whole groups of three and the rest, and the encoded length in those terms. */
  lemma {:induction false} GroupCount(n: nat)
    ensures n == 3 * (n / 3) + n % 3
    ensures EncodedLen(n) == 4 * (n / 3) + (if n % 3 == 0 then 0 else 4)
  {
    var q, r := n / 3, n % 3;
    assert n + 2 == 3 * q + (r + 2);
    assert (n + 2) / 3 == q + (r + 2) / 3;
  }

  /** Writes one group of four characters at `dst[at..at + 4]`. */
  method PutGroup(dst: array<byte>, at: nat, g: seq<byte>)
    requires |g| == 4 && at + 4 <= dst.Length
    modifies dst
    ensures forall k :: at <= k < at + 4 ==> dst[k] == g[k - at]
    ensures forall k :: 0 <= k < dst.Length && !(at <= k < at + 4) ==> dst[k] == old(dst[k])
  {
    dst[at], dst[at + 1], dst[at + 2], dst[at + 3] := g[0], g[1], g[2], g[3];
  }

  /** The whole groups of `EncodeInto`: the first `4 * (|src| / 3)` characters. */
  method EncodeGroups(dst: array<byte>, src: seq<byte>)
    requires dst.Length == EncodedLen(|src|)
    modifies dst
    ensures 4 * (|src| / 3) <= |Encode(src)|
    ensures forall k :: 0 <= k < 4 * (|src| / 3) ==> dst[k] == Encode(src)[k]
  {
    GroupCount(|src|);
    ghost var e := Encode(src);
    EncodeLength(src);
    var groups := |src| / 3;
    var i, si, di := 0, 0, 0;
    while i < groups
      invariant 0 <= i <= groups && si == 3 * i && di == 4 * i
      invariant forall k :: 0 <= k < di ==> dst[k] == e[k]
    {
      var g := EncodeBlock(src[si], src[si + 1], src[si + 2]);
      assert forall k :: di <= k < di + 4 ==> e[k] == g[k - di] by {
        EncodeAt(src, i);
        assert e[di..di + 4] == g;
      }
      PutGroup(dst, di, g);
      i, si, di := i + 1, si + 3, di + 4;
    }
  }

  /** `base64.StdEncoding.Encode(dst, src)`: fills a buffer of `EncodedLen`
      bytes, whole groups first and then the padded remainder. */
  method EncodeInto(dst: array<byte>, src: seq<byte>)
    requires dst.Length == EncodedLen(|src|)
    modifies dst
    ensures dst[..] == Encode(src)
  {
    ghost var e := Encode(src);
    EncodeLength(src);
    GroupCount(|src|);
    EncodeGroups(dst, src);
    var di := 4 * (|src| / 3);
    if |src| % 3 != 0 {
      var g := if |src| % 3 == 1 then EncodeTail1(src[|src| - 1]) else EncodeTail2(src[|src| - 2], src[|src| - 1]);
      assert di + 4 == |e| && forall k :: di <= k < di + 4 ==> e[k] == g[k - di] by {
        EncodeEnd(src);
        assert e[di..] == g;
      }
      PutGroup(dst, di, g);
    }
    assert forall k :: 0 <= k < dst.Length ==> dst[k] == e[k];
    assert dst[..] == e;
  }

  /** Test vectors: "42" is "NDI=", and the prefixes "f", "fo", "foo" of the
      test vectors in section 10 of RFC 4648 are "Zg==", "Zm8=", "Zm9v". */
  lemma {:induction false} EncodeExample()
    ensures Encode([52, 50]) == [78, 68, 73, 61]
    ensures Encode([102]) == [90, 103, 61, 61]
    ensures Encode([102, 111]) == [90, 109, 56, 61]
    ensures Encode([102, 111, 111]) == [90, 109, 57, 118]
  {
    assert Encode([102, 111, 111]) == EncodeBlock(102, 111, 111) + Encode([]);
  }
}
