/**
 * Expansion of Bluetooth short UUIDs (16- and 32-bit SDP codes) into full
 * 128-bit UUIDs, as in section 2.5.1 of Vol 3, Part B of the Bluetooth Core
 * Specification: full = code * 2^96 + Base UUID.
 *
 * A UUID is its 16 bytes, as the `uuid` crate stores it. `FromFields` lays
 * out the four RFC 4122 fields big-endian (section 4.1.2 of RFC 4122):
 * bytes 0..4 hold the first 32-bit field, 4..6 and 6..8 the two 16-bit
 * fields, 8..16 the 8-byte tail.
 */
module SdpUuid {
  import opened Wrappers

  type u8 = x: int | 0 <= x < 0x100
  type u16 = x: int | 0 <= x < 0x1_0000
  type u32 = x: int | 0 <= x < 0x1_0000_0000

  /** The 8-byte tail of a UUID (`&[u8; 8]`). */
  type Tail = s: seq<u8> | |s| == 8 witness [0, 0, 0, 0, 0, 0, 0, 0]

  /** A UUID as its 16 bytes, most significant first. */
  type Uuid = s: seq<u8> | |s| == 16 witness [0, 0, 0, 0, 0, 0, 0, 0, 0, 0, 0, 0, 0, 0, 0, 0]

  /** The four fields `Uuid::from_fields` takes and `Uuid::as_fields` gives back. */
  datatype Fields = Fields(d1: u32, d2: u16, d3: u16, d4: Tail)

  /** The Bluetooth Base UUID 00000000-0000-1000-8000-00805F9B34FB, as fields. */
  const BASE_UUID: Fields := Fields(0, 0, 0x1000, [0x80, 0x00, 0x00, 0x80, 0x5F, 0x9B, 0x34, 0xFB])

  /** The Base UUID as a 128-bit number. */
  const BASE_UUID_VALUE: nat := 0x0000_0000_0000_1000_8000_0080_5F9B_34FB

  /** 2^96: the weight of the first field in the 128-bit number. */
  const TWO_POW_96: nat := 0x1_0000_0000_0000_0000_0000_0000

  function Pow256(n: nat): (r: nat)
    ensures r > 0
  {
    if n == 0 then 1 else 256 * Pow256(n - 1)
  }

  /** The number a byte string denotes, most significant byte first. */
  function BeValue(s: seq<u8>): (r: nat)
    ensures r < Pow256(|s|)
  {
    if s == [] then 0
    else
      var v := BeValue(s[..|s| - 1]);
      assert v * 256 + s[|s| - 1] < Pow256(|s|) by {
        assert v + 1 <= Pow256(|s| - 1);
        assert (v + 1) * 256 <= Pow256(|s| - 1) * 256;
      }
      v * 256 + s[|s| - 1]
  }

  /** Splitting off the last byte of a number below 256 * p. */
  lemma DivMod256(x: nat, p: nat)
    requires x < 256 * p
    ensures x / 256 < p && x == x / 256 * 256 + x % 256
  {
  }

  /** The `n`-byte big-endian encoding of `x`. */
  function BeBytes(x: nat, n: nat): (r: seq<u8>)
    requires x < Pow256(n)
    ensures |r| == n
  {
    if n == 0 then []
    else
      DivMod256(x, Pow256(n - 1));
      BeBytes(x / 256, n - 1) + [x % 256]
  }

  /** Decoding the encoding gives the number back. */
  lemma {:induction false} BeValueOfBeBytes(x: nat, n: nat)
    requires x < Pow256(n)
    ensures BeValue(BeBytes(x, n)) == x
  {
    if n > 0 {
      var s := BeBytes(x, n);
      DivMod256(x, Pow256(n - 1));
      assert s[..n - 1] == BeBytes(x / 256, n - 1);
      BeValueOfBeBytes(x / 256, n - 1);
      assert BeValue(s) == BeValue(s[..n - 1]) * 256 + x % 256;
    }
  }

  /** Encoding the number of a byte string gives the byte string back. */
  lemma {:induction false} BeBytesOfBeValue(s: seq<u8>)
    ensures BeBytes(BeValue(s), |s|) == s
  {
    if s != [] {
      var n := |s|;
      var p := s[..n - 1];
      var v := BeValue(s);
      assert v == BeValue(p) * 256 + s[n - 1];
      assert v / 256 == BeValue(p) && v % 256 == s[n - 1];
      BeBytesOfBeValue(p);
      assert s == p + [s[n - 1]];
    }
  }

  /** The number of a concatenation: the prefix is shifted by the suffix's width. */
  lemma {:induction false} BeValueAppend(a: seq<u8>, b: seq<u8>)
    ensures BeValue(a + b) == BeValue(a) * Pow256(|b|) + BeValue(b)
  {
    if b != [] {
      var n := |b|;
      assert (a + b)[..|a + b| - 1] == a + b[..n - 1];
      BeValueAppend(a, b[..n - 1]);
      assert BeValue(a + b) == BeValue(a + b[..n - 1]) * 256 + b[n - 1];
      assert BeValue(b) == BeValue(b[..n - 1]) * 256 + b[n - 1];
      ShiftDistributes(BeValue(a), Pow256(n - 1), BeValue(b[..n - 1]), b[n - 1]);
    } else {
      assert a + b == a;
    }
  }

  lemma ShiftDistributes(x: int, p: int, y: int, c: int)
    ensures (x * p + y) * 256 + c == x * (256 * p) + (y * 256 + c)
  {
  }

  /** `Uuid::from_fields`: the four fields laid out big-endian. */
  function FromFields(f: Fields): (u: Uuid)
    ensures BeValue(u[..4]) == f.d1 && BeValue(u[4..6]) == f.d2 && BeValue(u[6..8]) == f.d3
    ensures u[8..] == f.d4
  {
    var u := BeBytes(f.d1, 4) + BeBytes(f.d2, 2) + BeBytes(f.d3, 2) + f.d4;
    assert u[..4] == BeBytes(f.d1, 4);
    assert u[4..6] == BeBytes(f.d2, 2);
    assert u[6..8] == BeBytes(f.d3, 2);
    BeValueOfBeBytes(f.d1, 4);
    BeValueOfBeBytes(f.d2, 2);
    BeValueOfBeBytes(f.d3, 2);
    u
  }

  /** `Uuid::as_fields`: the four fields read back from the bytes. */
  function AsFields(u: Uuid): (f: Fields)
    ensures FromFields(f) == u
  {
    BeBytesOfBeValue(u[..4]);
    BeBytesOfBeValue(u[4..6]);
    BeBytesOfBeValue(u[6..8]);
    var f := Fields(BeValue(u[..4]), BeValue(u[4..6]), BeValue(u[6..8]), u[8..]);
    assert FromFields(f) == BeBytes(f.d1, 4) + BeBytes(f.d2, 2) + BeBytes(f.d3, 2) + f.d4;
    assert u == u[..4] + u[4..6] + u[6..8] + u[8..];
    f
  }

  /** The 128-bit number a field tuple stands for. */
  function FieldsValue(f: Fields): nat {
    f.d1 * TWO_POW_96 + f.d2 * 0x1_0000_0000_0000_0000_0000 + f.d3 * 0x1_0000_0000_0000_0000 + BeValue(f.d4)
  }

  /** Reading the fields of a UUID built from fields gives those fields. */
  lemma AsFieldsOfFromFields(f: Fields)
    ensures AsFields(FromFields(f)) == f
  {
    var u := FromFields(f);
    assert u[..4] == BeBytes(f.d1, 4);
    assert u[4..6] == BeBytes(f.d2, 2);
    assert u[6..8] == BeBytes(f.d3, 2);
    BeValueOfBeBytes(f.d1, 4);
    BeValueOfBeBytes(f.d2, 2);
    BeValueOfBeBytes(f.d3, 2);
  }

  /** Building a UUID from its own fields gives the same UUID. */
  lemma FromFieldsOfAsFields(u: Uuid)
    ensures FromFields(AsFields(u)) == u
  {
  }

  /** The field form and the 128-bit number form of a UUID agree. */
  lemma FromFieldsValue(f: Fields)
    ensures BeValue(FromFields(f)) == FieldsValue(f)
  {
    var u := FromFields(f);
    assert u == u[..4] + u[4..6] + u[6..8] + u[8..];
    ConcatValue(u[..4], u[4..6], u[6..8], u[8..]);
  }

  /** The number of four concatenated pieces of widths 4, 2, 2 and 8. */
  lemma ConcatValue(a: seq<u8>, b: seq<u8>, c: seq<u8>, t: seq<u8>)
    requires |a| == 4 && |b| == 2 && |c| == 2 && |t| == 8
    ensures BeValue(a + b + c + t) ==
      BeValue(a) * TWO_POW_96 + BeValue(b) * 0x1_0000_0000_0000_0000_0000 + BeValue(c) * 0x1_0000_0000_0000_0000 + BeValue(t)
  {
    var x, y, z, w := BeValue(a), BeValue(b), BeValue(c), BeValue(t);
    assert Pow256(|b|) == 0x1_0000 && Pow256(|c|) == 0x1_0000;
    assert Pow256(|t|) == 0x1_0000_0000_0000_0000;
    BeValueAppend(a, b);
    assert BeValue(a + b) == x * 0x1_0000 + y;
    BeValueAppend(a + b, c);
    assert BeValue(a + b + c) == x * 0x1_0000_0000 + y * 0x1_0000 + z;
    BeValueAppend(a + b + c, t);
  }

  /** The tail of the Base UUID as a number. */
  lemma BaseTailValue()
    ensures BeValue(BASE_UUID.d4) == 0x8000_0080_5F9B_34FB
  {
    var t := BASE_UUID.d4;
    assert BeValue(t[..1]) == 0x80 by { assert t[..1][..0] == []; }
    assert BeValue(t[..2]) == 0x8000 by { assert t[..2][..1] == t[..1]; }
    assert BeValue(t[..3]) == 0x80_0000 by { assert t[..3][..2] == t[..2]; }
    assert BeValue(t[..4]) == 0x8000_0080 by { assert t[..4][..3] == t[..3]; }
    assert BeValue(t[..5]) == 0x80_0000_805F by { assert t[..5][..4] == t[..4]; }
    assert BeValue(t[..6]) == 0x8000_0080_5F9B by { assert t[..6][..5] == t[..5]; }
    assert BeValue(t[..7]) == 0x80_0000_805F_9B34 by { assert t[..7][..6] == t[..6]; }
    assert t[..8] == t && t[..7] == t[..8][..7];
  }

  /** The Base UUID constant denotes the number of the Bluetooth Base UUID. */
  lemma BaseUuidValue()
    ensures FieldsValue(BASE_UUID) == BASE_UUID_VALUE
    ensures BeValue(FromFields(BASE_UUID)) == BASE_UUID_VALUE
  {
    BaseTailValue();
    FromFieldsValue(BASE_UUID);
  }

  /**
   * `uuid_from_sdp`: the code in the first field, the second, third and
   * fourth fields taken from the Base UUID. Total: defined for every `u32`.
   */
  function UuidFromSdp(code: u32): (u: Uuid)
    ensures BeValue(u[..4]) == code
    ensures u[4..] == [0x00, 0x00, 0x10, 0x00, 0x80, 0x00, 0x00, 0x80, 0x5F, 0x9B, 0x34, 0xFB]
    ensures BeValue(u) == code * TWO_POW_96 + BASE_UUID_VALUE
  {
    var f := BASE_UUID.(d1 := code);
    ExpansionBytes(f);
    ExpansionValue(f);
    FromFields(f)
  }

  /** The byte layout of a UUID that lies on the Base UUID. */
  lemma ExpansionBytes(f: Fields)
    requires f.(d1 := 0) == BASE_UUID
    ensures FromFields(f)[..4] == BeBytes(f.d1, 4)
    ensures BeValue(FromFields(f)[..4]) == f.d1
    ensures FromFields(f)[4..] == [0x00, 0x00, 0x10, 0x00, 0x80, 0x00, 0x00, 0x80, 0x5F, 0x9B, 0x34, 0xFB]
  {
    var u := FromFields(f);
    BeValueOfBeBytes(f.d1, 4);
    assert BeBytes(0, 2) == [0, 0];
    assert BeBytes(0x1000, 2) == [0x10, 0];
    assert u[4..] == BeBytes(0, 2) + BeBytes(0x1000, 2) + BASE_UUID.d4;
  }

  /** The number of a UUID that lies on the Base UUID. */
  lemma ExpansionValue(f: Fields)
    requires f.(d1 := 0) == BASE_UUID
    ensures BeValue(FromFields(f)) == f.d1 * TWO_POW_96 + BASE_UUID_VALUE
  {
    FromFieldsValue(f);
    BaseTailValue();
  }

  /** `SdpShortUuid::from_sdp_short_uuid` for `u16`: widen to `u32`, then expand. */
  function FromSdpShortUuid16(code: u16): (u: Uuid)
    ensures u[..2] == [0, 0]
    ensures BeValue(u[2..4]) == code
  {
    var u := UuidFromSdp(code as u32);
    assert u[..4] == BeBytes(code, 4);
    assert u[..4] == u[..2] + u[2..4];
    BeValueAppend(u[..2], u[2..4]);
    assert Pow256(2) == 0x1_0000;
    assert BeValue(u[2..4]) < 0x1_0000;
    assert BeValue(u[..2]) == 0;
    assert u[..2][..1][..0] == [];
    u
  }

  /** `SdpShortUuid::from_sdp_short_uuid` for `u32`: the identity conversion, then expand. */
  function FromSdpShortUuid32(code: u32): (u: Uuid)
    ensures BeValue(u) == code * TWO_POW_96 + BASE_UUID_VALUE
  {
    UuidFromSdp(code)
  }

  /** The expansion, read as fields: (code, 0x0000, 0x1000, 80 00 00 80 5F 9B 34 FB). */
  lemma UuidFromSdpFields(code: u32)
    ensures AsFields(UuidFromSdp(code)) == Fields(code, 0x0000, 0x1000, BASE_UUID.d4)
    ensures AsFields(UuidFromSdp(code)) == BASE_UUID.(d1 := code)
  {
    AsFieldsOfFromFields(Fields(code, BASE_UUID.d2, BASE_UUID.d3, BASE_UUID.d4));
  }

  /** Expanding code 0 gives the Base UUID itself. */
  lemma UuidFromSdpZeroIsBase()
    ensures UuidFromSdp(0) == FromFields(BASE_UUID)
  {
  }

  /** Distinct codes give distinct UUIDs, and any two expansions agree outside the first field. */
  lemma UuidFromSdpInjective(a: u32, b: u32)
    ensures UuidFromSdp(a) == UuidFromSdp(b) <==> a == b
    ensures UuidFromSdp(a)[4..] == UuidFromSdp(b)[4..]
  {
  }

  /** A 16-bit code expands to the UUID of the same value widened to 32 bits. */
  lemma ShortUuid16AgreesWithWidened(code: u16)
    ensures FromSdpShortUuid16(code) == FromSdpShortUuid32(code as u32)
    ensures BeValue(FromSdpShortUuid16(code)) == code * TWO_POW_96 + BASE_UUID_VALUE
  {
  }

  /**
   * The inverse of the expansion: the short code of a UUID that lies on the
   * Base UUID, or None for any other UUID.
   */
  function SdpShortCode(u: Uuid): (r: Option<u32>)
    ensures r.Some? <==> u[4..] == FromFields(BASE_UUID)[4..]
  {
    if u[4..] == FromFields(BASE_UUID)[4..] then Some(BeValue(u[..4])) else None
  }

  /** Expansion and `SdpShortCode` are inverse to each other. */
  lemma SdpShortCodeRoundTrip(code: u32, u: Uuid)
    ensures SdpShortCode(UuidFromSdp(code)) == Some(code)
    ensures SdpShortCode(u) == Some(code) ==> UuidFromSdp(code) == u
  {
    UuidFromSdpZeroIsBase();
    if SdpShortCode(u) == Some(code) {
      BeBytesOfBeValue(u[..4]);
      var v := UuidFromSdp(code);
      assert v[..4] == BeBytes(code, 4);
      assert u == u[..4] + u[4..];
      assert v == v[..4] + v[4..];
    }
  }
}
