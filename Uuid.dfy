/** Device identities: 128-bit UUIDs, their 16 raw bytes and their canonical
    text form (lower-case hexadecimal in groups 8-4-4-4-12). */
module Uuid {
  import opened Types

  /** The 16 raw bytes of a UUID (`id[:]` in Go). */
  type Uuid = s: seq<byte> | |s| == 16 witness seq(16, i => 0)

  /** A lower-case hexadecimal digit. */
  function HexDigit(v: int): char
    requires 0 <= v < 16
  {
    if v < 10 then (48 + v) as char else (87 + v) as char
  }

  predicate IsHexDigit(c: char) {
    ('0' <= c <= '9') || ('a' <= c <= 'f')
  }

  /** Two hexadecimal digits per byte, high nibble first. */
  function Hex(bs: seq<byte>): (r: string)
    ensures |r| == 2 * |bs|
    ensures forall k :: 0 <= k < |r| ==> IsHexDigit(r[k])
    decreases |bs|
  {
    if |bs| == 0 then "" else [HexDigit(bs[0] / 16), HexDigit(bs[0] % 16)] + Hex(bs[1..])
  }

  /** Equal hexadecimal text means equal bytes. */
  lemma {:induction false} HexInjective(a: seq<byte>, b: seq<byte>)
    requires |a| == |b| && Hex(a) == Hex(b)
    ensures a == b
    decreases |a|
  {
    if |a| > 0 {
      var ha, hb := Hex(a), Hex(b);
      assert ha[0] == hb[0] && ha[1] == hb[1];
      assert a[0] / 16 == b[0] / 16 && a[0] % 16 == b[0] % 16;
      assert ha[2..] == Hex(a[1..]) && hb[2..] == Hex(b[1..]);
      HexInjective(a[1..], b[1..]);
      assert a == [a[0]] + a[1..] && b == [b[0]] + b[1..];
    }
  }

  /** `id.String()`: the canonical 8-4-4-4-12 text form. */
  function String(id: Uuid): string {
    Hex(id[..4]) + "-" + Hex(id[4..6]) + "-" + Hex(id[6..8]) + "-" + Hex(id[8..10]) + "-" + Hex(id[10..])
  }

  /** The text form has 36 characters, dashes at positions 8, 13, 18 and 23
      and a hexadecimal digit everywhere else; in particular it is never empty. */
  lemma {:induction false} StringFormat(id: Uuid)
    ensures var t := String(id);
            |t| == 36 &&
            (forall k :: 0 <= k < 36 ==> (t[k] == '-' <==> k in {8, 13, 18, 23})) &&
            (forall k :: 0 <= k < 36 && k !in {8, 13, 18, 23} ==> IsHexDigit(t[k]))
  {
    var t := String(id);
    var h0, h1, h2, h3, h4 := Hex(id[..4]), Hex(id[4..6]), Hex(id[6..8]), Hex(id[8..10]), Hex(id[10..]);
    assert t == h0 + "-" + h1 + "-" + h2 + "-" + h3 + "-" + h4;
    forall k | 0 <= k < 36
      ensures (t[k] == '-' <==> k in {8, 13, 18, 23})
      ensures k !in {8, 13, 18, 23} ==> IsHexDigit(t[k])
    {
      if k < 8 { assert t[k] == h0[k]; }
      else if 8 < k < 13 { assert t[k] == h1[k - 9]; }
      else if 13 < k < 18 { assert t[k] == h2[k - 14]; }
      else if 18 < k < 23 { assert t[k] == h3[k - 19]; }
      else if 23 < k { assert t[k] == h4[k - 24]; }
    }
  }

  /** Where each group of bytes sits in the text form. */
  lemma {:induction false} StringParts(id: Uuid)
    ensures var t := String(id);
            |t| == 36 &&
            t[..8] == Hex(id[..4]) && t[9..13] == Hex(id[4..6]) && t[14..18] == Hex(id[6..8]) &&
            t[19..23] == Hex(id[8..10]) && t[24..] == Hex(id[10..])
  {
    var h0, h1, h2, h3, h4 := Hex(id[..4]), Hex(id[4..6]), Hex(id[6..8]), Hex(id[8..10]), Hex(id[10..]);
    var t := String(id);
    assert t == (h0 + "-" + h1 + "-" + h2 + "-" + h3 + "-") + h4;
    assert t[24..] == h4;
    assert t[..23] == h0 + "-" + h1 + "-" + h2 + "-" + h3;
    assert t[19..23] == h3;
    assert t[..18] == h0 + "-" + h1 + "-" + h2;
    assert t[14..18] == h2;
    assert t[..13] == h0 + "-" + h1;
    assert t[9..13] == h1;
  }

  /** Distinct identities have distinct text forms. */
  lemma {:induction false} StringInjective(a: Uuid, b: Uuid)
    requires String(a) == String(b)
    ensures a == b
  {
    StringParts(a);
    StringParts(b);
    assert a[..4] == b[..4] by { HexInjective(a[..4], b[..4]); }
    assert a[4..6] == b[4..6] by { HexInjective(a[4..6], b[4..6]); }
    assert a[6..8] == b[6..8] by { HexInjective(a[6..8], b[6..8]); }
    assert a[8..10] == b[8..10] by { HexInjective(a[8..10], b[8..10]); }
    assert a[10..] == b[10..] by { HexInjective(a[10..], b[10..]); }
    assert a == a[..4] + a[4..6] + a[6..8] + a[8..10] + a[10..];
    assert b == b[..4] + b[4..6] + b[6..8] + b[8..10] + b[10..];
  }
}
