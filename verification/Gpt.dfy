/** The check of a GPT header (Common/Kernel/Disk/Fs/Fs.c; section 5.3.2 of the UEFI Specification). */
module Gpt {
  import opened Limits
  import opened Crc
  import opened Endian

  const SIGNATURE := 0x5452_4150_2049_4645
  const REVISION := 0x1_0000
  const HEADER_SIZE := 92

  function Field(h: seq<bv8>, at: nat, n: nat): nat
    requires at + n <= |h|
  {
    LittleEndian(h[at..at + n])
  }

  /** Four bytes as a 32-bit word, lowest first. */
  function Word32(b0: bv8, b1: bv8, b2: bv8, b3: bv8): bv32 {
    (b0 as bv32) | ((b1 as bv32) << 8) | ((b2 as bv32) << 16) | ((b3 as bv32) << 24)
  }

  function StoredChecksum(h: seq<bv8>): bv32
    requires |h| >= HEADER_SIZE
  {
    Word32(h[16], h[17], h[18], h[19])
  }

  lemma Word32Injective(a0: bv8, a1: bv8, a2: bv8, a3: bv8, b0: bv8, b1: bv8, b2: bv8, b3: bv8)
    requires Word32(a0, a1, a2, a3) == Word32(b0, b1, b2, b3)
    ensures a0 == b0 && a1 == b1 && a2 == b2 && a3 == b3
  {
  }

  /** The header with its own checksum taken as zero. */
  function Zeroed(h: seq<bv8>): (r: seq<bv8>)
    requires |h| >= HEADER_SIZE
    ensures |r| == |h|
  {
    h[..16] + [0, 0, 0, 0] + h[20..]
  }

  function HeaderBytes(h: seq<bv8>, n: nat): seq<bv8>
    requires HEADER_SIZE <= n <= |h|
  {
    Zeroed(h)[..n]
  }

  ghost predicate ZeroFrom(h: seq<bv8>, from: nat) {
    forall k | from <= k < |h| :: h[k] == 0
  }

  /** The sector is a primary header for a disk of that many sectors. */
  ghost predicate Accepted(h: seq<bv8>, numSectors: nat)
    requires |h| >= HEADER_SIZE
  {
    && Field(h, 0, 8) == SIGNATURE && Field(h, 8, 4) >= REVISION
    && HEADER_SIZE <= Field(h, 12, 4) <= |h|
    && StoredChecksum(h) == Crc32(HeaderBytes(h, Field(h, 12, 4)))
    && Field(h, 24, 8) == 1 && Field(h, 32, 8) == (numSectors + (LIMIT_64 - 1)) % LIMIT_64
    && 1 < Field(h, 72, 8) < Field(h, 32, 8)
    && Field(h, 80, 4) != 0 && Field(h, 84, 4) >= 128 && Field(h, 84, 4) % 8 == 0
    && ZeroFrom(h, HEADER_SIZE)
  }

  /** The checksum is taken with the header's own one cleared; then the header gets it back. */
  method HeaderChecksum(raw: array<bv8>, size: nat) returns (crc: bv32)
    requires HEADER_SIZE <= size <= raw.Length
    modifies raw
    ensures raw[..] == old(raw[..])
    ensures crc == Crc32(HeaderBytes(raw[..], size))
  {
    hide Crc32;
    ghost var h := raw[..];
    var b0, b1, b2, b3 := raw[16], raw[17], raw[18], raw[19];
    raw[16], raw[17], raw[18], raw[19] := 0, 0, 0, 0;
    assert raw[..] == Zeroed(h);
    assert raw[..size] == raw[..][..size];
    crc := CalculateCrc32(raw, size);
    raw[16], raw[17], raw[18], raw[19] := b0, b1, b2, b3;
  }

  method ValidateGptHeader(raw: array<bv8>, numSectors: nat) returns (ok: bool)
    requires raw.Length >= HEADER_SIZE && numSectors < LIMIT_64
    modifies raw
    ensures raw[..] == old(raw[..])
    ensures ok <==> Accepted(old(raw[..]), numSectors)
  {
    hide Crc32, HeaderBytes, LittleEndian, Word32;
    ghost var h := raw[..];
    ok := false;
    if Field(raw[..], 0, 8) != SIGNATURE {
      return;
    }
    if Field(raw[..], 8, 4) < REVISION {
      return;
    }
    var size := Field(raw[..], 12, 4);
    if size < HEADER_SIZE {
      return;
    } else if size > raw.Length {
      return;
    }
    var checksum := Word32(raw[16], raw[17], raw[18], raw[19]);
    var calculated := HeaderChecksum(raw, size);
    if checksum != calculated {
      return;
    }
    var backupLba := (numSectors + (LIMIT_64 - 1)) % LIMIT_64;
    if Field(raw[..], 24, 8) != 1 {
      return;
    } else if Field(raw[..], 32, 8) != backupLba {
      return;
    }
    if Field(raw[..], 72, 8) <= Field(raw[..], 24, 8) {
      return;
    } else if Field(raw[..], 72, 8) >= Field(raw[..], 32, 8) {
      return;
    }
    if Field(raw[..], 80, 4) == 0 {
      return;
    }
    if Field(raw[..], 84, 4) < 128 {
      return;
    } else if Field(raw[..], 84, 4) % 8 != 0 {
      return;
    }
    var index := HEADER_SIZE;
    while index < raw.Length
      invariant HEADER_SIZE <= index <= raw.Length
      invariant forall k | HEADER_SIZE <= k < index :: raw[k] == 0
    {
      if raw[index] != 0 {
        assert h[index] != 0;
        return;
      }
      index := index + 1;
    }
    ok := true;
  }

  // What the checksum is for

  lemma SliceOfTake(s: seq<bv8>, p: nat, at: nat, n: nat)
    requires at + n <= p <= |s|
    ensures s[..p][at..at + n] == s[at..at + n]
  {
  }

  lemma SliceOfDrop(s: seq<bv8>, q: nat, at: nat, n: nat)
    requires q <= at && at + n <= |s|
    ensures s[q..][at - q..at - q + n] == s[at..at + n]
  {
  }

  lemma SameField(h: seq<bv8>, h': seq<bv8>, p: nat, q: nat, at: nat, n: nat)
    requires |h| == |h'| && p <= q <= |h| && h[..p] == h'[..p] && h[q..] == h'[q..]
    requires at + n <= |h| && (at + n <= p || q <= at)
    ensures Field(h, at, n) == Field(h', at, n)
  {
    if at + n <= p {
      SliceOfTake(h, p, at, n);
      SliceOfTake(h', p, at, n);
    } else {
      SliceOfDrop(h, q, at, n);
      SliceOfDrop(h', q, at, n);
    }
  }

  lemma DifferAt(a: seq<bv8>, b: seq<bv8>) returns (k: nat)
    requires |a| == |b| && a != b
    ensures k < |a| && a[k] != b[k]
  {
    k :| k < |a| && a[k] != b[k];
  }

  lemma SameOutside(h: seq<bv8>, h': seq<bv8>, p: nat, q: nat, k: nat)
    requires |h| == |h'| && p <= q <= |h| && h[..p] == h'[..p] && h[q..] == h'[q..]
    requires k < |h| && (k < p || q <= k)
    ensures h[k] == h'[k]
  {
    if k < p {
      assert h[k] == h[..p][k] && h'[k] == h'[..p][k];
    } else {
      assert h[k] == h[q..][k - q] && h'[k] == h'[q..][k - q];
    }
  }

  lemma SamePrefix(h: seq<bv8>, h': seq<bv8>, n: nat, k: nat)
    requires k < n <= |h| == |h'| && h[..n] == h'[..n]
    ensures h[k] == h'[k]
  {
    assert h[..n][k] == h[k] && h'[..n][k] == h'[k];
  }

  /** The stored checksum has been altered: the calculated one is still that of the original. */
  lemma ChecksumAltered(h: seq<bv8>, h': seq<bv8>, p: nat, q: nat, n: nat)
    requires |h| == |h'| && 16 <= p <= q <= 20 <= |h| && h[..p] == h'[..p] && h[q..] == h'[q..] && h != h'
    requires HEADER_SIZE <= n <= |h|
    ensures HeaderBytes(h, n) == HeaderBytes(h', n) && StoredChecksum(h) != StoredChecksum(h')
  {
    hide Word32;
    var a, b := Zeroed(h), Zeroed(h');
    forall k | 0 <= k < |a|
      ensures a[k] == b[k]
    {
      if k < 16 || 20 <= k {
        SameOutside(h, h', p, q, k);
      }
    }
    assert a == b;
    var k := DifferAt(h, h');
    if k < 16 || 20 <= k {
      SameOutside(h, h', p, q, k);
    }
    if StoredChecksum(h) == StoredChecksum(h') {
      Word32Injective(h[16], h[17], h[18], h[19], h'[16], h'[17], h'[18], h'[19]);
    }
  }

  /** Something else has been altered, inside the part that has a checksum. */
  lemma ContentAltered(h: seq<bv8>, h': seq<bv8>, p: nat, q: nat, n: nat)
    requires |h| == |h'| && p <= q <= |h| && q - p <= 4 && h[..p] == h'[..p] && h[q..] == h'[q..]
    requires (q <= 16 || 20 <= p) && HEADER_SIZE <= n <= |h| && h[..n] != h'[..n]
    ensures Crc32(HeaderBytes(h, n)) != Crc32(HeaderBytes(h', n))
  {
    hide Crc32;
    var a, b := HeaderBytes(h, n), HeaderBytes(h', n);
    var e := if q <= n then q else n;
    var d := DifferAt(h[..n], h'[..n]);
    if d < p || q <= d {
      SameOutside(h, h', p, q, d);
    }
    forall k | 0 <= k < n && !(p <= k < e)
      ensures a[k] == b[k]
    {
      SameOutside(h, h', p, q, k);
    }
    assert a[..p] == b[..p] && a[e..] == b[e..];
    assert a[d] != b[d];
    FourByteErrorDetected(a, b, p, e);
  }

  /**
   A header that is accepted is no longer accepted once up to four consecutive bytes of its sector have been altered,
   as long as they leave the size alone and are not partly inside the checksum.
   */
  lemma AlterationRejected(h: seq<bv8>, h': seq<bv8>, p: nat, q: nat, numSectors: nat)
    requires |h| == |h'| >= HEADER_SIZE && Accepted(h, numSectors)
    requires p <= q <= |h| && q - p <= 4 && h[..p] == h'[..p] && h[q..] == h'[q..] && h != h'
    requires q <= 12 || (16 <= p && q <= 20) || 20 <= p
    ensures !Accepted(h', numSectors)
  {
    hide Crc32, HeaderBytes, LittleEndian, Word32;
    SameField(h, h', p, q, 12, 4);
    var n := Field(h, 12, 4);
    if 16 <= p && q <= 20 {
      ChecksumAltered(h, h', p, q, n);
    } else if h[..n] != h'[..n] {
      SameChecksum(h, h', p, q);
      ContentAltered(h, h', p, q, n);
    } else {
      var k := DifferAt(h, h');
      if k < n {
        SamePrefix(h, h', n, k);
      }
    }
  }

  lemma SameChecksum(h: seq<bv8>, h': seq<bv8>, p: nat, q: nat)
    requires |h| == |h'| >= HEADER_SIZE && p <= q <= |h| && h[..p] == h'[..p] && h[q..] == h'[q..]
    requires q <= 16 || 20 <= p
    ensures StoredChecksum(h) == StoredChecksum(h')
  {
    hide Word32;
    SameOutside(h, h', p, q, 16);
    SameOutside(h, h', p, q, 17);
    SameOutside(h, h', p, q, 18);
    SameOutside(h, h', p, q, 19);
  }
}
