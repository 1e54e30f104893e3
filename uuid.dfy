/** The UUID generators of the mboxheader package: version 4 (random) and
    version 7 (Unix milliseconds, then random) in the layouts of sections 5.4
    and 5.7 of RFC 9562, rendered as lower-case hex in 8-4-4-4-12 groups.
    The random source and the clock are parameters. */
module Uuid {
  import opened Text

  /** The 16 bytes rand.Read fills the buffer with. */
  type Random16 = s: seq<Byte> | |s| == 16 witness seq(16, _ => 0)

  // ---------------------------------------------------------------------------
  // Big-endian integers (encoding/binary.BigEndian)

  /** The w low-order bytes of v, most significant first. */
  function BigEndian(v: nat, w: nat): (r: seq<Byte>)
    ensures |r| == w
  {
    if w == 0 then [] else BigEndian(v / 256, w - 1) + [(v % 256) as Byte]
  }

  /** Shifting left by eight bits appends a zero byte. */
  lemma BigEndianShift(m: nat, w: nat)
    ensures BigEndian(m * 256, w + 1) == BigEndian(m, w) + [0]
  {
    assert (m * 256) / 256 == m;
    assert (m * 256) % 256 == 0;
  }

  const Two16: nat := 0x1_0000
  const Two48: nat := 0x1_0000_0000_0000
  const Two64: nat := 0x1_0000_0000_0000_0000

  /** uint64(ms) << 16: two's-complement conversion, then a shift that drops the top 16 bits. */
  function ShiftedMillis(ms: int): nat {
    ((ms % Two64) * Two16) % Two64
  }

  /** Shifting a 64-bit value left by 16 keeps its low 48 bits. */
  lemma ShiftKeepsLow48(m: int)
    ensures ((m % Two64) * Two16) % Two64 == ((m % Two64) % Two48) * Two16
  {
    var x := m % 0x1_0000_0000_0000_0000;
    var q := x / 0x1_0000_0000_0000;
    var r := x % 0x1_0000_0000_0000;
    assert x * 0x1_0000 == q * 0x1_0000_0000_0000_0000 + r * 0x1_0000;
  }

  /** Reducing modulo 2^64 first does not change the value modulo 2^48. */
  lemma ModOfMod(ms: int)
    ensures (ms % Two64) % Two48 == ms % Two48
  {
    var x := ms % 0x1_0000_0000_0000_0000;
    var k := ms / 0x1_0000_0000_0000_0000;
    var q := x / 0x1_0000_0000_0000;
    var r := x % 0x1_0000_0000_0000;
    assert ms == (k * 0x1_0000 + q) * 0x1_0000_0000_0000 + r;
  }

  /** The shifted value is the low 48 bits of ms followed by 16 zero bits. */
  lemma ShiftedMillisLow48(ms: int)
    ensures ShiftedMillis(ms) == (ms % Two48) * Two16
  {
    ShiftKeepsLow48(ms);
    ModOfMod(ms);
  }

  /** The eight bytes PutUint64 writes for uint64(ms) << 16: the 48-bit timestamp, then two zero bytes. */
  lemma PutMillisBytes(ms: int)
    ensures BigEndian(ShiftedMillis(ms), 8) == BigEndian(ms % Two48, 6) + [0, 0]
  {
    ShiftedMillisLow48(ms);
    var x: nat := ms % Two48;
    assert x * Two16 == (x * 256) * 256;
    BigEndianShift(x * 256, 7);
    BigEndianShift(x, 6);
  }

  // ---------------------------------------------------------------------------
  // Version and variant bits

  /** uuid[6] = (uuid[6] & 0x0f) | version << 4 */
  function WithVersion(b: Byte, version: Byte): Byte
    requires version < 16
  {
    (b & 0x0f) | (version << 4)
  }

  /** uuid[8] = (uuid[8] & 0x3f) | 0x80 */
  function WithVariant(b: Byte): Byte {
    (b & 0x3f) | 0x80
  }

  /** The version nibble is the given version and the low nibble is kept. */
  lemma VersionBits(b: Byte, version: Byte)
    requires version < 16
    ensures WithVersion(b, version) >> 4 == version
    ensures WithVersion(b, version) & 0x0f == b & 0x0f
  {
  }

  /** The two top bits are 10 and the six low bits are kept. */
  lemma VariantBits(b: Byte)
    ensures WithVariant(b) >> 6 == 2
    ensures WithVariant(b) & 0x3f == b & 0x3f
  {
  }

  /** The version 4 buffer: random bytes with the version and variant bits set. */
  function V4Bytes(rnd: Random16): (r: seq<Byte>)
    ensures |r| == 16
  {
    rnd[6 := WithVersion(rnd[6], 4)][8 := WithVariant(rnd[8])]
  }

  /** The version 7 buffer: PutUint64 over bytes 0-7, then version and variant bits. */
  function V7Bytes(rnd: Random16, ms: int): (r: seq<Byte>)
    ensures |r| == 16
  {
    var b := BigEndian(ShiftedMillis(ms), 8) + rnd[8..];
    b[6 := WithVersion(b[6], 7)][8 := WithVariant(b[8])]
  }

  /** Version 4: byte 6 carries version 4, byte 8 the variant 10, and every other
      bit comes from the random input. */
  lemma V4Layout(rnd: Random16)
    ensures var r := V4Bytes(rnd);
      && r[6] >> 4 == 4 && r[6] & 0x0f == rnd[6] & 0x0f
      && r[8] >> 6 == 2 && r[8] & 0x3f == rnd[8] & 0x3f
      && forall i :: 0 <= i < 16 && i != 6 && i != 8 ==> r[i] == rnd[i]
  {
    VersionBits(rnd[6], 4);
    VariantBits(rnd[8]);
  }

  /** Version 7: bytes 0-5 are ms modulo 2^48 big-endian, byte 6 is exactly 0x70 and
      byte 7 is 0x00 (PutUint64 cleared them before the version was set), byte 8
      carries the variant over random bits, and bytes 9-15 are random. */
  lemma V7Layout(rnd: Random16, ms: int)
    ensures var r := V7Bytes(rnd, ms);
      && r[..6] == BigEndian(ms % Two48, 6)
      && r[6] == 0x70 && r[7] == 0x00
      && r[8] >> 6 == 2 && r[8] & 0x3f == rnd[8] & 0x3f
      && r[9..] == rnd[9..]
  {
    PutMillisBytes(ms);
    var b := BigEndian(ShiftedMillis(ms), 8) + rnd[8..];
    assert b[..6] == BigEndian(ms % Two48, 6);
    assert b[6] == 0 && b[7] == 0 && b[8] == rnd[8];
    assert WithVersion(0, 7) == 0x70;
    VariantBits(rnd[8]);
  }

  // ---------------------------------------------------------------------------
  // The generators, filling a 16-byte buffer in place

  /** binary.BigEndian.PutUint64(buf[0:8], v) */
  method PutUint64(buf: array<Byte>, v: nat)
    requires buf.Length == 16
    modifies buf
    ensures buf[..8] == BigEndian(v, 8)
    ensures buf[8..] == old(buf[8..])
  {
    var i := 8;
    var x := v;
    while i > 0
      invariant 0 <= i <= 8
      invariant BigEndian(v, 8) == BigEndian(x, i) + buf[i..8]
      invariant buf[8..] == old(buf[8..])
    {
      assert BigEndian(x, i) == BigEndian(x / 256, i - 1) + [(x % 256) as Byte];
      buf[i - 1] := (x % 256) as Byte;
      assert buf[i - 1..8] == [(x % 256) as Byte] + buf[i..8];
      x := x / 256;
      i := i - 1;
    }
  }

  /** makeUUID: random bytes, then the version 4 and variant bits, rendered. */
  method MakeUuid(rnd: Random16) returns (s: string)
    ensures s == Render(V4Bytes(rnd))
  {
    var uuid := new Byte[16](i requires 0 <= i < 16 => rnd[i]);
    uuid[6] := (uuid[6] & 0x0f) | 0x40;
    uuid[8] := (uuid[8] & 0x3f) | 0x80;
    assert uuid[..] == V4Bytes(rnd);
    s := Render(uuid[..]);
  }

  /** makeUUIDv7: random bytes, the shifted millisecond count over bytes 0-7, then the
      version 7 and variant bits, rendered. */
  method MakeUuidV7(rnd: Random16, ms: int) returns (s: string)
    ensures s == Render(V7Bytes(rnd, ms))
  {
    var uuid := new Byte[16](i requires 0 <= i < 16 => rnd[i]);
    PutUint64(uuid, ShiftedMillis(ms));
    assert uuid[..] == BigEndian(ShiftedMillis(ms), 8) + rnd[8..] by {
      assert uuid[..] == uuid[..8] + uuid[8..];
    }
    ghost var b := uuid[..];
    uuid[6] := (uuid[6] & 0x0f) | 0x70;
    uuid[8] := (uuid[8] & 0x3f) | 0x80;
    assert uuid[..] == b[6 := WithVersion(b[6], 7)][8 := WithVariant(b[8])];
    s := Render(uuid[..]);
  }

  // ---------------------------------------------------------------------------
  // fmt's %x over byte slices, grouped 8-4-4-4-12

  function HexDigit(n: Byte): char
    requires n < 16
  {
    "0123456789abcdef"[n as int]
  }

  predicate IsLowerHex(c: char) {
    ('0' <= c <= '9') || ('a' <= c <= 'f')
  }

  /** Two lower-case hex digits per byte. */
  function Hex(b: seq<Byte>): (r: string)
    ensures |r| == 2 * |b|
  {
    if b == [] then [] else [HexDigit(b[0] >> 4), HexDigit(b[0] & 0x0f)] + Hex(b[1..])
  }

  /** The byte groups of the string form: [0:4] [4:6] [6:8] [8:10] [10:16]. */
  function Groups(b: seq<Byte>): seq<seq<Byte>>
    requires |b| == 16
  {
    [b[..4], b[4..6], b[6..8], b[8..10], b[10..]]
  }

  /** Each group in hex, the groups joined by dashes. */
  function RenderGroups(gs: seq<seq<Byte>>): string
    requires |gs| >= 1
  {
    if |gs| == 1 then Hex(gs[0]) else Hex(gs[0]) + "-" + RenderGroups(gs[1..])
  }

  /** The string form of a UUID. */
  function Render(b: seq<Byte>): string
    requires |b| == 16
  {
    RenderGroups(Groups(b))
  }

  function HexValue(c: char): Byte
    requires IsLowerHex(c)
  {
    if '0' <= c <= '9' then (c as int - '0' as int) as Byte else (c as int - 'a' as int + 10) as Byte
  }

  /** Reads pairs of hex digits back into bytes. */
  function Unhex(s: string): seq<Byte>
    requires |s| % 2 == 0
    requires forall i :: 0 <= i < |s| ==> IsLowerHex(s[i])
  {
    if s == [] then [] else [(HexValue(s[0]) << 4) | HexValue(s[1])] + Unhex(s[2..])
  }

  lemma HexDigitValue(n: Byte)
    requires n < 16
    ensures IsLowerHex(HexDigit(n)) && HexValue(HexDigit(n)) == n
  {
  }

  lemma ByteFromNibbles(b: Byte)
    ensures ((b >> 4) << 4) | (b & 0x0f) == b
  {
  }

  /** Hex output is lower-case hex that reads back to the same bytes. */
  lemma {:induction false} HexRoundTrip(b: seq<Byte>)
    ensures AllHex(Hex(b)) && Unhex(Hex(b)) == b
  {
    if b != [] {
      HexRoundTrip(b[1..]);
      HexDigitValue(b[0] >> 4);
      HexDigitValue(b[0] & 0x0f);
      ByteFromNibbles(b[0]);
      var h := Hex(b);
      assert h[2..] == Hex(b[1..]);
    }
  }

  predicate AllHex(s: string) {
    forall i :: 0 <= i < |s| ==> IsLowerHex(s[i])
  }

  /** s is groups of 2 * sizes[k] lower-case hex digits separated by single dashes. */
  predicate GroupsShape(s: string, sizes: seq<nat>)
    decreases sizes
  {
    && |sizes| >= 1
    && var n := 2 * sizes[0];
       if |sizes| == 1 then |s| == n && AllHex(s)
       else |s| > n && AllHex(s[..n]) && s[n] == '-' && GroupsShape(s[n + 1..], sizes[1..])
  }

  /** Reads dash-separated hex groups back into their bytes, in order. */
  function ParseGroups(s: string, sizes: seq<nat>): seq<Byte>
    requires GroupsShape(s, sizes)
    decreases sizes
  {
    var n := 2 * sizes[0];
    if |sizes| == 1 then Unhex(s) else Unhex(s[..n]) + ParseGroups(s[n + 1..], sizes[1..])
  }

  function Sizes(gs: seq<seq<Byte>>): (r: seq<nat>)
    ensures |r| == |gs|
  {
    if gs == [] then [] else [|gs[0]|] + Sizes(gs[1..])
  }

  function Flatten(gs: seq<seq<Byte>>): seq<Byte> {
    if gs == [] then [] else gs[0] + Flatten(gs[1..])
  }

  /** Rendering groups gives text of their shape, and parsing it gives their bytes back. */
  lemma {:induction false} RenderGroupsRoundTrip(gs: seq<seq<Byte>>)
    requires |gs| >= 1
    ensures GroupsShape(RenderGroups(gs), Sizes(gs))
    ensures ParseGroups(RenderGroups(gs), Sizes(gs)) == Flatten(gs)
  {
    HexRoundTrip(gs[0]);
    if |gs| > 1 {
      RenderGroupsRoundTrip(gs[1..]);
      var h := Hex(gs[0]);
      var s := RenderGroups(gs);
      assert s[..|h|] == h;
      assert s[|h| + 1..] == RenderGroups(gs[1..]);
    } else {
      assert gs[1..] == [];
    }
  }

  /** A string of hex groups holds only lower-case hex digits and dashes. */
  lemma {:induction false} GroupsShapeChars(s: string, sizes: seq<nat>)
    requires GroupsShape(s, sizes)
    decreases sizes
    ensures forall j :: 0 <= j < |s| ==> IsLowerHex(s[j]) || s[j] == '-'
  {
    if |sizes| > 1 {
      var n := 2 * sizes[0];
      GroupsShapeChars(s[n + 1..], sizes[1..]);
      forall j | 0 <= j < |s| ensures IsLowerHex(s[j]) || s[j] == '-' {
        if j < n {
          assert s[..n][j] == s[j];
        } else if j > n {
          assert s[n + 1..][j - n - 1] == s[j];
        }
      }
    }
  }

  /** The 8-4-4-4-12 shape: 32 lower-case hex digits with dashes after 8, 12, 16 and 20 of them. */
  predicate UuidShape(s: string) {
    GroupsShape(s, [4, 2, 2, 2, 6])
  }

  /** Reads a rendered UUID back into its 16 bytes. */
  function Parse(s: string): seq<Byte>
    requires UuidShape(s)
  {
    ParseGroups(s, [4, 2, 2, 2, 6])
  }

  lemma GroupSizes(b: seq<Byte>)
    requires |b| == 16
    ensures Sizes(Groups(b)) == [4, 2, 2, 2, 6]
  {
    var gs := Groups(b);
    assert Sizes(gs[4..]) == [6];
    assert Sizes(gs[3..]) == [2, 6];
    assert Sizes(gs[2..]) == [2, 2, 6];
    assert Sizes(gs[1..]) == [2, 2, 2, 6];
  }

  lemma GroupsFlatten(b: seq<Byte>)
    requires |b| == 16
    ensures Flatten(Groups(b)) == b
  {
    var gs := Groups(b);
    assert Flatten(gs[4..]) == b[10..];
    assert Flatten(gs[3..]) == b[8..];
    assert Flatten(gs[2..]) == b[6..];
    assert Flatten(gs[1..]) == b[4..];
  }

  lemma RenderLength(b: seq<Byte>)
    requires |b| == 16
    ensures |Render(b)| == 36
  {
    var gs := Groups(b);
    assert |RenderGroups(gs[4..])| == 12;
    assert |RenderGroups(gs[3..])| == 17;
    assert |RenderGroups(gs[2..])| == 22;
    assert |RenderGroups(gs[1..])| == 27;
  }

  /** The rendering is 36 characters in the 8-4-4-4-12 shape, and it determines the
      bytes: parsing it gives them back. */
  lemma RenderRoundTrip(b: seq<Byte>)
    requires |b| == 16
    ensures |Render(b)| == 36 && UuidShape(Render(b)) && Parse(Render(b)) == b
  {
    RenderGroupsRoundTrip(Groups(b));
    GroupSizes(b);
    GroupsFlatten(b);
    RenderLength(b);
  }
}
