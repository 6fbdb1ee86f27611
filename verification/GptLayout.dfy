/**
 A GPT header as it is laid out on the disk (section 5.3.2 of the UEFI Specification), and which ones are accepted.
 */
module GptLayout {
  import opened Endian
  import opened Crc
  import opened Gpt

  /** The bytes of a header, field by field, and what follows it in its sector. */
  datatype Header = Header(signature: seq<bv8>, revision: seq<bv8>, size: seq<bv8>, reserved: seq<bv8>, own: seq<bv8>,
                           backup: seq<bv8>, firstUsable: seq<bv8>, lastUsable: seq<bv8>, guid: seq<bv8>,
                           entries: seq<bv8>, count: seq<bv8>, entrySize: seq<bv8>, tableChecksum: seq<bv8>,
                           rest: seq<bv8>)
  {
    predicate Valid() {
      && |signature| == 8 && |revision| == 4 && |size| == 4 && |reserved| == 4 && |own| == 8 && |backup| == 8
      && |firstUsable| == 8 && |lastUsable| == 8 && |guid| == 16
      && |entries| == 8 && |count| == 4 && |entrySize| == 4 && |tableChecksum| == 4
    }

    function First(): seq<bv8> { signature + revision + size }

    function Second(): seq<bv8> { reserved + own + backup }

    function Third(): seq<bv8> { firstUsable + lastUsable + guid }

    function Fourth(): seq<bv8> { entries + count + entrySize + tableChecksum }

    /** The sector, with these four bytes for the checksum. */
    function Sector(checksum: seq<bv8>): (r: seq<bv8>)
      requires Valid() && |checksum| == 4
      ensures |r| == 92 + |rest|
    {
      First() + checksum + Second() + Third() + Fourth() + rest
    }
  }

  /** The four bytes of a checksum, lowest first. */
  function ChecksumBytes(x: bv32): (r: seq<bv8>)
    ensures |r| == 4
  {
    [(x & 0xFF) as bv8, ((x >> 8) & 0xFF) as bv8, ((x >> 16) & 0xFF) as bv8, ((x >> 24) & 0xFF) as bv8]
  }

  lemma ByteOfWord(x: bv32)
    ensures (((x & 0xFF) as bv8) as bv32) == x & 0xFF
    ensures ((((x >> 8) & 0xFF) as bv8) as bv32) == (x >> 8) & 0xFF
    ensures ((((x >> 16) & 0xFF) as bv8) as bv32) == (x >> 16) & 0xFF
    ensures ((((x >> 24) & 0xFF) as bv8) as bv32) == (x >> 24) & 0xFF
  {
  }

  lemma WordOfBytes(x: bv32)
    ensures (x & 0xFF) | (((x >> 8) & 0xFF) << 8) | (((x >> 16) & 0xFF) << 16) | (((x >> 24) & 0xFF) << 24) == x
  {
  }

  lemma WordIs(x: bv32)
    ensures var b := ChecksumBytes(x); Word32(b[0], b[1], b[2], b[3]) == x
  {
    ByteOfWord(x);
    WordOfBytes(x);
  }

  // Where things are

  lemma Middle(a: seq<bv8>, b: seq<bv8>, c: seq<bv8>)
    ensures (a + b + c)[|a|..|a| + |b|] == b
  {
  }

  lemma Inner(h: seq<bv8>, from: nat, part: seq<bv8>, at: nat, n: nat)
    requires from + |part| <= |h| && h[from..from + |part|] == part && at + n <= |part|
    ensures h[from + at..from + at + n] == part[at..at + n]
  {
    var a, b := h[from + at..from + at + n], part[at..at + n];
    forall k | 0 <= k < n
      ensures a[k] == b[k]
    {
      assert h[from..from + |part|][at + k] == h[from + at + k];
    }
  }

  lemma Parts(v: Header, c: seq<bv8>)
    requires v.Valid() && |c| == 4
    ensures var h := v.Sector(c);
      && |v.First()| == 16 && |v.Second()| == 20 && |v.Third()| == 32 && |v.Fourth()| == 20
      && h[0..16] == v.First() && h[16..20] == c && h[20..40] == v.Second() && h[72..92] == v.Fourth()
      && h[92..] == v.rest
  {
    assert |v.First()| == 16 && |v.Second()| == 20 && |v.Third()| == 32 && |v.Fourth()| == 20;
    Joined(v.First(), c, v.Second(), v.Third(), v.Fourth(), v.rest);
  }

  lemma Joined(f: seq<bv8>, c: seq<bv8>, s: seq<bv8>, t: seq<bv8>, u: seq<bv8>, rest: seq<bv8>)
    requires |f| == 16 && |c| == 4 && |s| == 20 && |t| == 32 && |u| == 20
    ensures var h := f + c + s + t + u + rest;
      h[0..16] == f && h[16..20] == c && h[20..40] == s && h[72..92] == u && h[92..] == rest
  {
    Middle(f, c, s + (t + u + rest));
    Middle(f + c, s, t + u + rest);
    Middle(f + c + s + t, u, rest);
    assert f + c + s + t + u + rest == f + c + (s + (t + u + rest));
    assert f + c + s + t + u + rest == f + c + s + (t + u + rest);
  }

  lemma Numbers(v: Header, c: seq<bv8>)
    requires v.Valid() && |c| == 4
    ensures var h := v.Sector(c);
      && |h| >= 92 && h[0..8] == v.signature && h[8..12] == v.revision && h[12..16] == v.size
      && h[24..32] == v.own && h[32..40] == v.backup
  {
    hide Header.Sector;
    var h := v.Sector(c);
    Parts(v, c);
    var f, s := v.First(), v.Second();
    assert f[0..8] == v.signature && f[8..12] == v.revision && f[12..16] == v.size;
    assert s[4..12] == v.own && s[12..20] == v.backup;
    Inner(h, 0, f, 0, 8);
    Inner(h, 0, f, 8, 4);
    Inner(h, 0, f, 12, 4);
    Inner(h, 20, s, 4, 8);
    Inner(h, 20, s, 12, 8);
  }

  lemma MoreNumbers(v: Header, c: seq<bv8>)
    requires v.Valid() && |c| == 4
    ensures var h := v.Sector(c);
      && |h| >= 92 && h[72..80] == v.entries && h[80..84] == v.count && h[84..88] == v.entrySize
      && h[16..20] == c && h[92..] == v.rest
  {
    hide Header.Sector;
    var h := v.Sector(c);
    Parts(v, c);
    var u := v.Fourth();
    assert u[0..8] == v.entries && u[8..12] == v.count && u[12..16] == v.entrySize;
    Inner(h, 72, u, 0, 8);
    Inner(h, 72, u, 8, 4);
    Inner(h, 72, u, 12, 4);
  }

  // Which headers are accepted

  lemma {:induction false} SameNumberSameBytes(a: seq<bv8>, b: seq<bv8>)
    requires |a| == |b| && LittleEndian(a) == LittleEndian(b)
    ensures a == b
  {
    if a != [] {
      LowestByte(a[0], LittleEndian(a[1..]), b[0], LittleEndian(b[1..]));
      SameNumberSameBytes(a[1..], b[1..]);
      assert a == [a[0]] + a[1..] && b == [b[0]] + b[1..];
    }
  }

  lemma LowestByte(x: bv8, p: nat, y: bv8, q: nat)
    requires x as int + 256 * p == y as int + 256 * q
    ensures x == y && p == q
  {
    var i, j: nat := x as int, y as int;
    assert i < 256 && j < 256;
  }

  /** The eight characters EFI PART. */
  lemma SignatureIs(s: seq<bv8>)
    requires |s| == 8
    ensures LittleEndian(s) == 0x5452_4150_2049_4645 <==> s == [0x45, 0x46, 0x49, 0x20, 0x50, 0x41, 0x52, 0x54]
  {
    var name: seq<bv8> := [0x45, 0x46, 0x49, 0x20, 0x50, 0x41, 0x52, 0x54];
    SignatureNumber(name);
    if LittleEndian(s) == 0x5452_4150_2049_4645 {
      SameNumberSameBytes(s, name);
    }
  }

  lemma SignatureNumber(s: seq<bv8>)
    requires s == [0x45, 0x46, 0x49, 0x20, 0x50, 0x41, 0x52, 0x54]
    ensures LittleEndian(s) == 0x5452_4150_2049_4645
  {
    FourBytes(s);
    FourBytes(s[4..]);
    assert LittleEndian([]) == 0 && s[4..][4..] == [];
  }

  /** The checksum of the header, taken with zeros in its own place. */
  function ChecksumOf(v: Header): bv32
    requires v.Valid() && LittleEndian(v.size) <= 92 + |v.rest|
  {
    Crc32(v.Sector([0, 0, 0, 0])[..LittleEndian(v.size)])
  }

  lemma ZeroedSector(v: Header, c: seq<bv8>)
    requires v.Valid() && |c| == 4
    ensures Zeroed(v.Sector(c)) == v.Sector([0, 0, 0, 0])
  {
    Parts(v, c);
    hide Header.First, Header.Second, Header.Third, Header.Fourth;
    var h := v.Sector(c);
    var behind := v.Second() + v.Third() + v.Fourth() + v.rest;
    assert h == v.First() + c + behind && v.Sector([0, 0, 0, 0]) == v.First() + [0, 0, 0, 0] + behind;
    assert h[..16] == v.First() && h[20..] == behind;
  }

  /**
   Of all headers, whatever their fields hold, exactly these are accepted: signature, a revision from 1.0 on, a size
   from 92 bytes to that of the sector, the right checksum; own and backup place the first and the last sector, the
   entries between them; at least one entry, of at least 128 bytes and a multiple of eight; and only zeros behind.
   */
  lemma {:induction false} HeaderExactly(v: Header, checksum: bv32, numSectors: nat)
    requires v.Valid() && 0 < numSectors < 0x1_0000_0000_0000_0000
    ensures Accepted(v.Sector(ChecksumBytes(checksum)), numSectors) <==>
      && v.signature == [0x45, 0x46, 0x49, 0x20, 0x50, 0x41, 0x52, 0x54]
      && LittleEndian(v.revision) >= 0x1_0000
      && 92 <= LittleEndian(v.size) <= 92 + |v.rest| && checksum == ChecksumOf(v)
      && LittleEndian(v.own) == 1 && LittleEndian(v.backup) == numSectors - 1
      && 1 < LittleEndian(v.entries) < numSectors - 1 && LittleEndian(v.count) != 0
      && LittleEndian(v.entrySize) >= 128 && LittleEndian(v.entrySize) % 8 == 0
      && forall k | 0 <= k < |v.rest| :: v.rest[k] == 0
  {
    hide Header.Sector, LittleEndian, Crc32, Word32, ChecksumBytes;
    var c := ChecksumBytes(checksum);
    var h := v.Sector(c);
    Numbers(v, c);
    MoreNumbers(v, c);
    SignatureIs(v.signature);
    assert Field(h, 0, 8) == LittleEndian(v.signature);
    StoredIs(v, checksum);
    ZeroedSector(v, c);
    RestIsZero(h, v.rest);
    LastSector(numSectors);
  }

  lemma StoredIs(v: Header, checksum: bv32)
    requires v.Valid()
    ensures var h := v.Sector(ChecksumBytes(checksum)); |h| >= 92 && StoredChecksum(h) == checksum
  {
    hide Header.Sector, LittleEndian, Word32, ChecksumBytes;
    var c := ChecksumBytes(checksum);
    var h := v.Sector(c);
    MoreNumbers(v, c);
    assert h[16] == h[16..20][0] && h[17] == h[16..20][1] && h[18] == h[16..20][2] && h[19] == h[16..20][3];
    WordIs(checksum);
  }

  lemma RestIsZero(h: seq<bv8>, rest: seq<bv8>)
    requires |h| >= 92 && h[92..] == rest
    ensures ZeroFrom(h, 92) <==> forall k | 0 <= k < |rest| :: rest[k] == 0
  {
    forall k | 92 <= k < |h|
      ensures h[k] == rest[k - 92]
    {
    }
    if ZeroFrom(h, 92) {
      forall k | 0 <= k < |rest|
        ensures rest[k] == 0
      {
        assert h[92 + k] == 0;
      }
    }
  }

  lemma LastSector(numSectors: nat)
    requires 0 < numSectors < 0x1_0000_0000_0000_0000
    ensures (numSectors + (0x1_0000_0000_0000_0000 - 1)) % 0x1_0000_0000_0000_0000 == numSectors - 1
  {
  }

  /** So a header as other systems write it is accepted: 92 bytes, and entries of 128 bytes times a power of two. */
  lemma UsualHeaderIsAccepted(v: Header, numSectors: nat, k: nat)
    requires v.Valid() && 0 < numSectors < 0x1_0000_0000_0000_0000
    requires v.signature == [0x45, 0x46, 0x49, 0x20, 0x50, 0x41, 0x52, 0x54]
    requires LittleEndian(v.revision) == 0x1_0000 && LittleEndian(v.size) == 92
    requires LittleEndian(v.own) == 1 && LittleEndian(v.backup) == numSectors - 1
    requires 1 < LittleEndian(v.entries) < numSectors - 1 && LittleEndian(v.count) > 0
    requires LittleEndian(v.entrySize) == 128 * Twos(k) && forall i | 0 <= i < |v.rest| :: v.rest[i] == 0
    ensures Accepted(v.Sector(ChecksumBytes(ChecksumOf(v))), numSectors)
  {
    hide Header.Sector, Crc32, ChecksumBytes, Accepted, ChecksumOf, Twos;
    TwosArePositive(k);
    EntrySizes(Twos(k));
    HeaderExactly(v, ChecksumOf(v), numSectors);
  }

  lemma EntrySizes(t: nat)
    requires t >= 1
    ensures 128 * t >= 128 && 128 * t % 8 == 0
  {
  }

  function Twos(k: nat): nat { if k == 0 then 1 else 2 * Twos(k - 1) }

  lemma {:induction false} TwosArePositive(k: nat)
    ensures Twos(k) >= 1
  {
    if k > 0 {
      TwosArePositive(k - 1);
    }
  }
}
