/** The metrics fields inside a packet's payload: 64-bit little-endian fields at fixed offsets and a
    16-byte checksum over everything else. */
module Payload {
  import opened Prelude
  import opened Runtime

  const PKT_SEQNO_BYTE_OFFSET := 0
  const SYS_TIMESTAMP_BYTE_OFFSET := 8
  const STD_TIMESTAMP_BYTE_OFFSET := 16
  const PKT_LENGTH_BYTE_OFFSET := 32
  const PKT_MD5_BYTE_OFFSET := 40
  const PKT_MD5_BYTE_LEN := 16

  /** The smallest payload that holds all the fields. */
  const HEADER_LEN := 56

  const TWO64 := 0x1_0000_0000_0000_0000
  const TWO63 := 0x8000_0000_0000_0000
  const TWO32 := 0x1_0000_0000
  const TWO31 := 0x8000_0000

  type Digest = d: Bytes | |d| == PKT_MD5_BYTE_LEN witness seq(16, i => 0)

  // ---------- little-endian fields

  function Pow256(k: nat): (r: nat)
    ensures r > 0
  {
    if k == 0 then 1 else 256 * Pow256(k - 1)
  }

  /** The low `k` bytes of `n`, least significant first. */
  function ToLE(n: nat, k: nat): (r: Bytes)
    ensures |r| == k
    decreases k
  {
    if k == 0 then [] else [n % 256] + ToLE(n / 256, k - 1)
  }

  function FromLE(bs: Bytes): nat {
    if bs == [] then 0 else bs[0] + 256 * FromLE(bs[1..])
  }

  /** A number that fits is read back as written. */
  lemma {:induction false} LERoundTrip(n: nat, k: nat)
    requires n < Pow256(k)
    ensures FromLE(ToLE(n, k)) == n
    decreases k
  {
    if k > 0 {
      LERoundTrip(n / 256, k - 1);
      assert ToLE(n, k)[1..] == ToLE(n / 256, k - 1);
    }
  }

  /** And what is read is what the bytes say: writing it again gives the same bytes. */
  lemma {:induction false} LEInverse(bs: Bytes)
    ensures ToLE(FromLE(bs), |bs|) == bs
    decreases |bs|
  {
    if bs != [] {
      LEInverse(bs[1..]);
      LowByte(bs[0], FromLE(bs[1..]));
      assert bs == [bs[0]] + bs[1..];
    }
  }

  lemma LowByte(b: Byte, rest: nat)
    ensures (b + 256 * rest) / 256 == rest && (b + 256 * rest) % 256 == b
  {
  }

  /** Byte `i` has the weight 256^i. */
  lemma {:induction false} LEByte(n: nat, k: nat, i: nat)
    requires i < k
    ensures ToLE(n, k)[i] == n / Pow256(i) % 256
    decreases i
  {
    if i > 0 {
      LEByte(n / 256, k - 1, i - 1);
      DivTwice(n, Pow256(i - 1));
    }
  }

  lemma DivTwice(n: nat, d: nat)
    requires d > 0
    ensures n / 256 / d == n / (256 * d)
  {
    var m := n / 256;
    var q, r := m / d, m % d;
    assert n == 256 * (q * d + r) + n % 256;
    assert n == q * (256 * d) + (256 * r + n % 256);
    DivUnique(n, 256 * d, q, 256 * r + n % 256);
  }

  lemma EightBytes()
    ensures Pow256(8) == TWO64
  {
    assert Pow256(2) == 0x1_0000;
    assert Pow256(4) == TWO32;
    assert Pow256(6) == 0x1_0000_0000_0000;
  }

  /** Conversions between signed and unsigned 64 bits, and the narrowing to a signed 32-bit int. */
  function ToU64(n: int): (r: nat)
    ensures r < TWO64 && (n - r) % TWO64 == 0
  {
    n % TWO64
  }

  function ToI64(n: nat): (r: int)
    requires n < TWO64
    ensures -TWO63 <= r < TWO63 && (n - r) % TWO64 == 0
  {
    if n < TWO63 then n else n - TWO64
  }

  function ToI32(n: int): (r: int)
    ensures -TWO31 <= r < TWO31 && (n - r) % TWO32 == 0
  {
    var m := n % TWO32;
    if m < TWO31 then m else m - TWO32
  }

  lemma SignedRoundTrip(n: int)
    requires -TWO63 <= n < TWO63
    ensures ToI64(ToU64(n)) == n
  {
  }

  /** A payload with `bs` in place of the bytes from `at` on. */
  function Put(p: Bytes, at: nat, bs: Bytes): (r: Bytes)
    requires at + |bs| <= |p|
    ensures |r| == |p|
    ensures r[at..at + |bs|] == bs
  {
    p[..at] + bs + p[at + |bs|..]
  }

  lemma PutElsewhere(p: Bytes, at: nat, bs: Bytes, lo: nat, hi: nat)
    requires at + |bs| <= |p| && lo <= hi <= |p|
    requires hi <= at || at + |bs| <= lo
    ensures Put(p, at, bs)[lo..hi] == p[lo..hi]
  {
    var r := Put(p, at, bs);
    forall i | lo <= i < hi ensures r[i] == p[i] {
      if i >= at {
        assert r[i] == p[at + |bs|..][i - at - |bs|];
      }
    }
  }

  function ReadU64(p: Bytes, at: nat): (r: nat)
    requires at + 8 <= |p|
    ensures r < TWO64
  {
    FromLEBound(p[at..at + 8]);
    EightBytes();
    FromLE(p[at..at + 8])
  }

  lemma {:induction false} FromLEBound(bs: Bytes)
    ensures FromLE(bs) < Pow256(|bs|)
    decreases |bs|
  {
    if bs != [] {
      FromLEBound(bs[1..]);
    }
  }

  method WriteU64(payload: array<Byte>, at: nat, n: nat)
    requires at + 8 <= payload.Length && n < TWO64
    modifies payload
    ensures payload[..] == Put(old(payload[..]), at, ToLE(n, 8))
  {
    Store(payload, at, ToLE(n, 8));
  }

  // ---------- the fields

  function ReadPacketSeqno(p: Bytes): nat
    requires |p| >= HEADER_LEN
  {
    ReadU64(p, PKT_SEQNO_BYTE_OFFSET)
  }

  /** Timestamps are written as microseconds and read back as a time point, in nanoseconds. */
  function ReadSysclockTimestamp(p: Bytes): int
    requires |p| >= HEADER_LEN
  {
    1000 * ToI64(ReadU64(p, SYS_TIMESTAMP_BYTE_OFFSET))
  }

  function ReadStdclockTimestamp(p: Bytes): int
    requires |p| >= HEADER_LEN
  {
    1000 * ToI64(ReadU64(p, STD_TIMESTAMP_BYTE_OFFSET))
  }

  function ReadPacketLength(p: Bytes): nat
    requires |p| >= HEADER_LEN
  {
    ReadU64(p, PKT_LENGTH_BYTE_OFFSET)
  }

  /** What the checksum covers: everything but itself. */
  function Covered(p: Bytes): Bytes
    requires |p| >= HEADER_LEN
  {
    p[..PKT_MD5_BYTE_OFFSET] + p[PKT_MD5_BYTE_OFFSET + PKT_MD5_BYTE_LEN..]
  }

  /** A packet's digest is right: each of the 16 bytes behind the fields is that of the digest of
      everything else. */
  predicate DigestMatches(p: Bytes, md5: Bytes -> Digest)
    requires |p| >= HEADER_LEN
  {
    forall i :: 0 <= i < 16 ==> p[40 + i] == md5(p[..40] + p[56..])[i]
  }

  predicate ValidatePacketChecksum(p: Bytes, md5: Bytes -> Digest): (valid: bool)
    requires |p| >= HEADER_LEN
    ensures valid <==> DigestMatches(p, md5)
  {
    ChecksumExactly(p, md5);
    p[PKT_MD5_BYTE_OFFSET..PKT_MD5_BYTE_OFFSET + PKT_MD5_BYTE_LEN] == md5(Covered(p))
  }

  /** The comparison of slices accepts exactly the packets whose digest is right. */
  lemma ChecksumExactly(p: Bytes, md5: Bytes -> Digest)
    requires |p| >= HEADER_LEN
    ensures p[PKT_MD5_BYTE_OFFSET..PKT_MD5_BYTE_OFFSET + PKT_MD5_BYTE_LEN] == md5(Covered(p)) <==> DigestMatches(p, md5)
  {
    var digest := md5(p[..40] + p[56..]);
    assert forall i :: 0 <= i < 16 ==> p[40..56][i] == p[40 + i];
    if DigestMatches(p, md5) {
      assert p[40..56] == digest;
    }
  }

  /** What the fields of any payload say: each is the number, least significant byte first, that its
      eight bytes hold; the timestamps as signed microseconds. */
  lemma FieldsExactly(p: Bytes)
    requires |p| >= HEADER_LEN
    ensures p[0..8] == ToLE(ReadPacketSeqno(p), 8) && ReadPacketSeqno(p) < TWO64
    ensures p[8..16] == ToLE(ToU64(ReadSysclockTimestamp(p) / 1000), 8)
    ensures p[16..24] == ToLE(ToU64(ReadStdclockTimestamp(p) / 1000), 8)
    ensures p[32..40] == ToLE(ReadPacketLength(p), 8) && ReadPacketLength(p) < TWO64
    ensures IsTimestamp(ReadSysclockTimestamp(p)) && IsTimestamp(ReadStdclockTimestamp(p))
  {
    hide ToLE, FromLE, ToI64, ToU64;
    LEInverse(p[0..8]);
    LEInverse(p[8..16]);
    LEInverse(p[16..24]);
    LEInverse(p[32..40]);
    UnsignedRoundTrip(ReadU64(p, SYS_TIMESTAMP_BYTE_OFFSET));
    UnsignedRoundTrip(ReadU64(p, STD_TIMESTAMP_BYTE_OFFSET));
  }

  predicate IsTimestamp(t: int) {
    t % 1000 == 0 && -TWO63 <= t / 1000 < TWO63
  }

  lemma UnsignedRoundTrip(n: nat)
    requires n < TWO64
    ensures ToU64(ToI64(n)) == n
  {
  }

  method WritePacketChecksum(payload: array<Byte>, md5: Bytes -> Digest)
    requires payload.Length >= HEADER_LEN
    modifies payload
    ensures payload[..] == Put(old(payload[..]), PKT_MD5_BYTE_OFFSET, md5(Covered(old(payload[..]))))
  {
    var p := payload[..];
    Store(payload, PKT_MD5_BYTE_OFFSET, md5(Covered(p)));
  }

  // ---------- the generator

  /** The bytes first, first + 1, ... modulo 256. */
  function Iota(first: int, len: nat): (r: Bytes)
    ensures |r| == len && forall i :: 0 <= i < len ==> r[i] == (first + i) % 256
  {
    seq(len, i requires 0 <= i < len => (first + i) % 256)
  }

  /** The payload number `k`: a running byte pattern, and over it the fields. The counter goes through
      a signed 32-bit int on its way into the packet. */
  function Fields(k: nat, len: nat, stdUs: int, sysUs: int): (r: Bytes)
    requires HEADER_LEN <= len < TWO64
    ensures |r| == len
  {
    var seqno := ToI32(k);
    var p0 := Put(Iota(seqno, len), PKT_SEQNO_BYTE_OFFSET, ToLE(ToU64(seqno), 8));
    var p1 := Put(p0, STD_TIMESTAMP_BYTE_OFFSET, ToLE(ToU64(stdUs), 8));
    var p2 := Put(p1, SYS_TIMESTAMP_BYTE_OFFSET, ToLE(ToU64(sysUs), 8));
    Put(p2, PKT_LENGTH_BYTE_OFFSET, ToLE(len, 8))
  }

  function Generated(k: nat, len: nat, stdUs: int, sysUs: int, md5: Bytes -> Digest): (r: Bytes)
    requires HEADER_LEN <= len < TWO64
    ensures |r| == len
  {
    var p := Fields(k, len, stdUs, sysUs);
    Put(p, PKT_MD5_BYTE_OFFSET, md5(Covered(p)))
  }

  class Generator {
    const enableMetrics: bool
    const md5: Bytes -> Digest
    var seqno: nat

    constructor (enableMetrics: bool, md5: Bytes -> Digest)
      ensures this.enableMetrics == enableMetrics && this.md5 == md5 && seqno == 0
    {
      this.enableMetrics, this.md5, seqno := enableMetrics, md5, 0;
    }

    /** Overwrites the whole payload. The two clocks are read in this order, in nanoseconds. */
    method GeneratePayload(payload: array<Byte>, steadyNow: int, systemNow: int)
      requires enableMetrics ==> HEADER_LEN <= payload.Length < TWO64
      requires seqno < TWO64
      modifies this, payload
      ensures seqno == ToU64(old(seqno) + 1)
      ensures payload[..]
           == if enableMetrics
              then Generated(old(seqno), payload.Length, TruncDiv(steadyNow, 1000), TruncDiv(systemNow, 1000), md5)
              else Iota(ToI32(old(seqno)), payload.Length)
    {
      hide ToLE, ToI32, ToU64, TruncDiv, Covered;
      var number := ToI32(seqno);
      seqno := ToU64(seqno + 1);
      forall i | 0 <= i < payload.Length {
        payload[i] := (number + i) % 256;
      }
      assert payload[..] == Iota(number, payload.Length);
      if !enableMetrics {
        return;
      }
      WriteU64(payload, PKT_SEQNO_BYTE_OFFSET, ToU64(number));
      WriteU64(payload, STD_TIMESTAMP_BYTE_OFFSET, ToU64(TruncDiv(steadyNow, 1000)));
      WriteU64(payload, SYS_TIMESTAMP_BYTE_OFFSET, ToU64(TruncDiv(systemNow, 1000)));
      WriteU64(payload, PKT_LENGTH_BYTE_OFFSET, payload.Length);
      WritePacketChecksum(payload, md5);
    }
  }

  // ---------- what comes back

  /** A field that was put in is read back, and later writes elsewhere leave it alone. */
  lemma ReadPut(p: Bytes, at: nat, n: nat)
    requires at + 8 <= |p| && n < TWO64
    ensures ReadU64(Put(p, at, ToLE(n, 8)), at) == n
  {
    hide ToLE, FromLE;
    EightBytes();
    LERoundTrip(n, 8);
  }

  lemma ReadKept(p: Bytes, at: nat, bs: Bytes, field: nat)
    requires at + |bs| <= |p| && field + 8 <= |p|
    requires field + 8 <= at || at + |bs| <= field
    ensures ReadU64(Put(p, at, bs), field) == ReadU64(p, field)
  {
    hide FromLE, Put;
    PutElsewhere(p, at, bs, field, field + 8);
  }

  lemma FieldsRead(k: nat, len: nat, stdUs: int, sysUs: int)
    requires HEADER_LEN <= len < TWO64
    ensures var p := Fields(k, len, stdUs, sysUs);
      && ReadU64(p, PKT_SEQNO_BYTE_OFFSET) == ToU64(ToI32(k))
      && ReadU64(p, STD_TIMESTAMP_BYTE_OFFSET) == ToU64(stdUs)
      && ReadU64(p, SYS_TIMESTAMP_BYTE_OFFSET) == ToU64(sysUs)
      && ReadU64(p, PKT_LENGTH_BYTE_OFFSET) == len
  {
    hide ToLE, ReadU64, Put, ToU64, ToI32;
    var seqno := ToI32(k);
    var i := Iota(seqno, len);
    var p0 := Put(i, PKT_SEQNO_BYTE_OFFSET, ToLE(ToU64(seqno), 8));
    var p1 := Put(p0, STD_TIMESTAMP_BYTE_OFFSET, ToLE(ToU64(stdUs), 8));
    var p2 := Put(p1, SYS_TIMESTAMP_BYTE_OFFSET, ToLE(ToU64(sysUs), 8));
    ReadPut(i, PKT_SEQNO_BYTE_OFFSET, ToU64(seqno));
    ReadPut(p0, STD_TIMESTAMP_BYTE_OFFSET, ToU64(stdUs));
    ReadPut(p1, SYS_TIMESTAMP_BYTE_OFFSET, ToU64(sysUs));
    ReadPut(p2, PKT_LENGTH_BYTE_OFFSET, len);
    ReadKept(p0, STD_TIMESTAMP_BYTE_OFFSET, ToLE(ToU64(stdUs), 8), PKT_SEQNO_BYTE_OFFSET);
    ReadKept(p1, SYS_TIMESTAMP_BYTE_OFFSET, ToLE(ToU64(sysUs), 8), PKT_SEQNO_BYTE_OFFSET);
    ReadKept(p1, SYS_TIMESTAMP_BYTE_OFFSET, ToLE(ToU64(sysUs), 8), STD_TIMESTAMP_BYTE_OFFSET);
    ReadKept(p2, PKT_LENGTH_BYTE_OFFSET, ToLE(len, 8), PKT_SEQNO_BYTE_OFFSET);
    ReadKept(p2, PKT_LENGTH_BYTE_OFFSET, ToLE(len, 8), STD_TIMESTAMP_BYTE_OFFSET);
    ReadKept(p2, PKT_LENGTH_BYTE_OFFSET, ToLE(len, 8), SYS_TIMESTAMP_BYTE_OFFSET);
  }

  /** The checksum is over what is left when it is cut out, so writing it does not change what it covers. */
  lemma CoveredKept(p: Bytes, digest: Digest)
    requires |p| >= HEADER_LEN
    ensures Covered(Put(p, PKT_MD5_BYTE_OFFSET, digest)) == Covered(p)
  {
    var skip := PKT_MD5_BYTE_OFFSET + PKT_MD5_BYTE_LEN;
    PutElsewhere(p, PKT_MD5_BYTE_OFFSET, digest, 0, PKT_MD5_BYTE_OFFSET);
    PutElsewhere(p, PKT_MD5_BYTE_OFFSET, digest, skip, |p|);
    var r := Put(p, PKT_MD5_BYTE_OFFSET, digest);
    assert r[..PKT_MD5_BYTE_OFFSET] == r[0..PKT_MD5_BYTE_OFFSET] && p[..PKT_MD5_BYTE_OFFSET] == p[0..PKT_MD5_BYTE_OFFSET];
    assert r[skip..] == r[skip..|p|] && p[skip..] == p[skip..|p|];
  }

  /** Every generated payload decodes to what was put in: both timestamps, its own length, and a
      matching checksum, whatever the checksum function. */
  lemma GeneratedDecodes(k: nat, len: nat, stdUs: int, sysUs: int, md5: Bytes -> Digest)
    requires HEADER_LEN <= len < TWO64
    requires -TWO63 <= stdUs < TWO63 && -TWO63 <= sysUs < TWO63
    ensures var p := Generated(k, len, stdUs, sysUs, md5);
      && ReadPacketSeqno(p) == ToU64(ToI32(k))
      && ReadStdclockTimestamp(p) == 1000 * stdUs
      && ReadSysclockTimestamp(p) == 1000 * sysUs
      && ReadPacketLength(p) == |p|
      && ValidatePacketChecksum(p, md5)
  {
    hide ReadU64, Put, ToU64, ToI32, ToI64, Covered, Fields;
    var p := Fields(k, len, stdUs, sysUs);
    var digest := md5(Covered(p));
    FieldsRead(k, len, stdUs, sysUs);
    SignedRoundTrip(stdUs);
    SignedRoundTrip(sysUs);
    ReadKept(p, PKT_MD5_BYTE_OFFSET, digest, PKT_SEQNO_BYTE_OFFSET);
    ReadKept(p, PKT_MD5_BYTE_OFFSET, digest, STD_TIMESTAMP_BYTE_OFFSET);
    ReadKept(p, PKT_MD5_BYTE_OFFSET, digest, SYS_TIMESTAMP_BYTE_OFFSET);
    ReadKept(p, PKT_MD5_BYTE_OFFSET, digest, PKT_LENGTH_BYTE_OFFSET);
    CoveredKept(p, digest);
  }

  /** Where everything is on the wire. */
  lemma WireLayout(k: nat, len: nat, stdUs: int, sysUs: int, md5: Bytes -> Digest)
    requires HEADER_LEN <= len < TWO64
    ensures var p := Generated(k, len, stdUs, sysUs, md5);
      && p[0..8] == ToLE(ToU64(ToI32(k)), 8)
      && p[8..16] == ToLE(ToU64(sysUs), 8)
      && p[16..24] == ToLE(ToU64(stdUs), 8)
      && p[32..40] == ToLE(len, 8)
      && p[40..56] == md5(p[..40] + p[56..])
  {
    hide ToLE, ToU64, ToI32, Put;
    var seqno, p := ToI32(k), Fields(k, len, stdUs, sysUs);
    var i := Iota(seqno, len);
    var p0 := Put(i, PKT_SEQNO_BYTE_OFFSET, ToLE(ToU64(seqno), 8));
    var p1 := Put(p0, STD_TIMESTAMP_BYTE_OFFSET, ToLE(ToU64(stdUs), 8));
    var p2 := Put(p1, SYS_TIMESTAMP_BYTE_OFFSET, ToLE(ToU64(sysUs), 8));
    var digest := md5(Covered(p));
    PutElsewhere(p0, STD_TIMESTAMP_BYTE_OFFSET, ToLE(ToU64(stdUs), 8), 0, 8);
    PutElsewhere(p1, SYS_TIMESTAMP_BYTE_OFFSET, ToLE(ToU64(sysUs), 8), 0, 8);
    PutElsewhere(p1, SYS_TIMESTAMP_BYTE_OFFSET, ToLE(ToU64(sysUs), 8), 16, 24);
    PutElsewhere(p2, PKT_LENGTH_BYTE_OFFSET, ToLE(len, 8), 0, 8);
    PutElsewhere(p2, PKT_LENGTH_BYTE_OFFSET, ToLE(len, 8), 8, 16);
    PutElsewhere(p2, PKT_LENGTH_BYTE_OFFSET, ToLE(len, 8), 16, 24);
    PutElsewhere(p, PKT_MD5_BYTE_OFFSET, digest, 0, 8);
    PutElsewhere(p, PKT_MD5_BYTE_OFFSET, digest, 8, 16);
    PutElsewhere(p, PKT_MD5_BYTE_OFFSET, digest, 16, 24);
    PutElsewhere(p, PKT_MD5_BYTE_OFFSET, digest, 32, 40);
    CoveredKept(p, digest);
  }

  /** The sequence number survives the detour through a 32-bit int exactly for the first 2^31 packets
      and the last 2^31 of the 64-bit range; in between a wrong number is sent. */
  lemma SeqnoDecodes(k: nat)
    requires k < TWO64
    ensures ToU64(ToI32(k)) == k <==> k < TWO31 || k >= TWO64 - TWO31
  {
    var m := k % TWO32;
    assert k == TWO32 * (k / TWO32) + m;
    if m >= TWO31 {
      assert ToI32(k) == m - TWO32;
      assert ToU64(m - TWO32) == TWO64 + m - TWO32;
    } else {
      assert ToU64(m) == m;
    }
  }

  /** The bytes that no field uses keep the running pattern. */
  lemma PatternKept(k: nat, len: nat, stdUs: int, sysUs: int, md5: Bytes -> Digest, i: nat)
    requires HEADER_LEN <= len < TWO64
    requires STD_TIMESTAMP_BYTE_OFFSET + 8 <= i < PKT_LENGTH_BYTE_OFFSET || HEADER_LEN <= i < len
    ensures Generated(k, len, stdUs, sysUs, md5)[i] == (ToI32(k) + i) % 256
  {
    hide ToLE, ToU64, ToI32, Put;
    var p := Fields(k, len, stdUs, sysUs);
    var seqno := ToI32(k);
    var p0 := Put(Iota(seqno, len), PKT_SEQNO_BYTE_OFFSET, ToLE(ToU64(seqno), 8));
    var p1 := Put(p0, STD_TIMESTAMP_BYTE_OFFSET, ToLE(ToU64(stdUs), 8));
    var p2 := Put(p1, SYS_TIMESTAMP_BYTE_OFFSET, ToLE(ToU64(sysUs), 8));
    ByteKept(Iota(seqno, len), PKT_SEQNO_BYTE_OFFSET, ToLE(ToU64(seqno), 8), i);
    ByteKept(p0, STD_TIMESTAMP_BYTE_OFFSET, ToLE(ToU64(stdUs), 8), i);
    ByteKept(p1, SYS_TIMESTAMP_BYTE_OFFSET, ToLE(ToU64(sysUs), 8), i);
    ByteKept(p2, PKT_LENGTH_BYTE_OFFSET, ToLE(len, 8), i);
    ByteKept(p, PKT_MD5_BYTE_OFFSET, md5(Covered(p)), i);
  }

  lemma ByteKept(p: Bytes, at: nat, bs: Bytes, i: nat)
    requires at + |bs| <= |p| && i < |p| && (i < at || at + |bs| <= i)
    ensures Put(p, at, bs)[i] == p[i]
  {
    hide Put;
    PutElsewhere(p, at, bs, i, i + 1);
    assert Put(p, at, bs)[i] == Put(p, at, bs)[i..i + 1][0] && p[i] == p[i..i + 1][0];
  }

  /** A generated payload that arrives with other bytes in place of its digest is intact only if they
      are the same bytes. */
  lemma DigestDamage(k: nat, len: nat, stdUs: int, sysUs: int, md5: Bytes -> Digest, q: Bytes)
    requires HEADER_LEN <= len < TWO64 && |q| == len
    requires var p := Generated(k, len, stdUs, sysUs, md5); q[..40] == p[..40] && q[56..] == p[56..]
    ensures DigestMatches(q, md5) <==> q == Generated(k, len, stdUs, sysUs, md5)
  {
    hide Fields, Generated;
    var p := Generated(k, len, stdUs, sysUs, md5);
    ChecksumExactly(q, md5);
    assert p[40..56] == md5(p[..40] + p[56..]) by { WireLayout(k, len, stdUs, sysUs, md5); }
    assert p == p[..40] + p[40..56] + p[56..] && q == q[..40] + q[40..56] + q[56..];
  }

  /** A payload of the same length with other bytes elsewhere but its digest untouched is intact only if
      the checksum function does not tell them apart. */
  lemma BodyDamage(k: nat, len: nat, stdUs: int, sysUs: int, md5: Bytes -> Digest, q: Bytes)
    requires HEADER_LEN <= len < TWO64 && |q| == len
    requires q[40..56] == Generated(k, len, stdUs, sysUs, md5)[40..56]
    ensures var p := Generated(k, len, stdUs, sysUs, md5);
      DigestMatches(q, md5) <==> md5(q[..40] + q[56..]) == md5(p[..40] + p[56..])
  {
    hide Fields, Generated;
    ChecksumExactly(q, md5);
    WireLayout(k, len, stdUs, sysUs, md5);
  }
}
