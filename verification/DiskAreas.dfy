/** Reading bytes from sectors: which bytes end up where, and what else may have been written. */
module DiskAreas {
  import opened Bits
  import opened Products
  import opened RawMemory

  datatype Area = Area(from: nat, to: nat) {
    predicate Has(i: int) { from <= i < to }
  }

  ghost predicate Apart(a: Area, b: Area) {
    a.to <= b.from || b.to <= a.from
  }

  lemma ApartPart(a: Area, b: Area, part: Area)
    requires Apart(a, b) && a.from <= part.from && part.to <= a.to
    ensures Apart(part, b) && Apart(b, part)
  {
  }

  lemma ApartOrdered(a: Area, b: Area)
    requires a.to <= b.from
    ensures Apart(a, b) && Apart(b, a)
  {
  }

  /** Nothing outside the three areas has changed. */
  ghost predicate OnlyIn(s: seq<Byte>, s': seq<Byte>, a: Area, b: Area, c: Area) {
    && |s| == |s'|
    && forall i | 0 <= i < |s| :: !a.Has(i) && !b.Has(i) && !c.Has(i) ==> s'[i] == s[i]
  }

  lemma OnlyInTrans(s: seq<Byte>, s1: seq<Byte>, s2: seq<Byte>, a: Area, b: Area, c: Area)
    requires OnlyIn(s, s1, a, b, c) && OnlyIn(s1, s2, a, b, c)
    ensures OnlyIn(s, s2, a, b, c)
  {
  }

  predicate IsByte(image: seq<Byte>, j: int, x: Byte) {
    0 <= j < |image| && image[j] == x
  }

  /** The bytes of memory from `at` on are those of the image from `from` on, for places lo to hi. */
  ghost predicate Holds(s: seq<Byte>, at: nat, image: seq<Byte>, from: nat, lo: nat, hi: nat) {
    && at + hi <= |s|
    && forall k | at + lo <= k < at + hi :: IsByte(image, k - at + from, s[k])
  }

  lemma HoldsSlice(s: seq<Byte>, at: nat, image: seq<Byte>, from: nat, n: nat)
    requires Holds(s, at, image, from, 0, n)
    ensures n > 0 ==> from + n <= |image| && s[at..at + n] == image[from..from + n]
  {
    if n > 0 {
      assert IsByte(image, n - 1 + from, s[at + n - 1]);
    }
  }

  /** Copying a piece of the image that is held elsewhere in memory. */
  lemma CopyHolds(s: seq<Byte>, s': seq<Byte>, src: nat, dst: nat, image: seq<Byte>, from: nat, n: nat,
                  start: nat, done: nat)
    requires Holds(s, src, image, from + done, 0, n) && Holds(s, start, image, from, 0, done) && dst == start + done
    requires dst + n <= |s| && s' == Overlay(s, dst, s[src..src + n])
    ensures Holds(s', start, image, from, 0, done + n)
    ensures s'[dst..dst + n] == s[src..src + n]
  {
    forall k | start <= k < start + done + n
      ensures IsByte(image, k - start + from, s'[k])
    {
      if k >= dst {
        assert s'[k] == s[k - dst + src];
      }
    }
  }

  lemma ChunkFits(sectors: nat, size: nat)
    requires 0 < size <= 0xFE00 && sectors <= 0xFE00 / size
    ensures sectors * size <= 0xFE00
  {
    var per := 0xFE00 / size;
    assert size * per + 0xFE00 % size == 0xFE00;
    MulMonotone(sectors, per, size);
  }

  /** What only changes elsewhere still holds. */
  lemma TransferOnly(s: seq<Byte>, s': seq<Byte>, start: nat, image: seq<Byte>, from: nat, done: nat,
                     dest: Area, transfer: Area)
    requires Holds(s, start, image, from, 0, done) && Apart(dest, transfer)
    requires dest.from == start && start + done <= dest.to
    requires forall a, b :: OnlyIn(s, s', a, b, transfer)
    ensures Holds(s', start, image, from, 0, done) && OnlyIn(s, s', dest, transfer, transfer)
  {
    assert OnlyIn(s, s', transfer, transfer, transfer);
  }

  lemma PrefixEqual(s: seq<Byte>, s1: seq<Byte>, dst: nat, src: nat, n: nat)
    requires n >= 8 && dst + n <= |s| && src + n <= |s| == |s1| && (dst + n <= src || src + n <= dst)
    requires s == Overlay(s1, dst, s1[src..src + n])
    ensures s[dst..dst + 8] == s[src..src + 8]
  {
    var piece := s1[src..src + n];
    assert s[dst..dst + n] == piece && s[src..src + n] == piece;
    assert s[dst..dst + 8] == piece[..8] && s[src..src + 8] == piece[..8];
  }

  lemma OnlyInMerge(s: seq<Byte>, s1: seq<Byte>, s2: seq<Byte>, a: Area, b: Area, dest: Area, transfer: Area)
    requires OnlyIn(s, s1, a, transfer, transfer) && OnlyIn(s1, s2, b, transfer, transfer)
    requires dest.from <= a.from && a.to <= dest.to && dest.from <= b.from && b.to <= dest.to
    ensures OnlyIn(s, s2, dest, transfer, transfer)
  {
  }

  lemma PerReadIsPositive(size: nat)
    requires 0 < size <= 0xFE00
    ensures 0xFE00 / size >= 1
  {
    DivModUnique(0xFE00, size, 0xFE00 / size, 0xFE00 % size);
    if 0xFE00 / size < 1 {
      DivModUnique(0xFE00, size, 0, 0xFE00);
    }
  }

  lemma SplitProduct(left: nat, count: nat, size: nat)
    requires count <= left
    ensures left * size == count * size + (left - count) * size
  {
    MulAdd(count, left - count, size);
  }

  lemma NoSectors(n: nat, size: nat)
    requires n == 0
    ensures n * size == 0
  {
  }

  lemma NothingHolds(s: seq<Byte>, at: nat, image: seq<Byte>, from: nat)
    requires at <= |s|
    ensures Holds(s, at, image, from, 0, 0)
  {
  }

  lemma HoldsNothing(s: seq<Byte>, at: nat, image: seq<Byte>, from: nat, n: nat)
    requires at + n <= |s|
    ensures Holds(s, at, image, from, n, n)
  {
  }

  lemma OnlyInRefl(s: seq<Byte>, a: Area, b: Area)
    ensures OnlyIn(s, s, a, b, b)
  {
  }

  lemma HoldsJoin(s: seq<Byte>, at: nat, image: seq<Byte>, from: nat, lo: nat, mid: nat, hi: nat)
    requires Holds(s, at, image, from, lo, mid) && Holds(s, at, image, from, mid, hi) && lo <= mid <= hi
    ensures Holds(s, at, image, from, lo, hi)
  {
  }

  /** What is held stays held when only other places change. */
  lemma HoldsKept(s: seq<Byte>, s': seq<Byte>, at: nat, image: seq<Byte>, from: nat, lo: nat, hi: nat,
                  a: Area, b: Area)
    requires Holds(s, at, image, from, lo, hi) && OnlyIn(s, s', a, b, b)
    requires lo <= hi && Apart(a, Area(at + lo, at + hi)) && Apart(b, Area(at + lo, at + hi))
    ensures Holds(s', at, image, from, lo, hi)
  {
  }

  /** Copying a held piece to the same place of another area. */
  lemma CopiedAcross(s: seq<Byte>, at: nat, to: nat, image: seq<Byte>, from: nat, lo: nat, hi: nat)
    requires Holds(s, at, image, from, lo, hi) && lo <= hi && to + hi <= |s|
    ensures Holds(Overlay(s, to + lo, s[at + lo..at + hi]), to, image, from, lo, hi)
  {
    var s' := Overlay(s, to + lo, s[at + lo..at + hi]);
    forall k | to + lo <= k < to + hi
      ensures IsByte(image, k - to + from, s'[k])
    {
      assert s'[k] == s[k - to + at];
    }
  }

  /** A copy of a whole area takes along whatever part of it was held. */
  lemma CopiedPart(s: seq<Byte>, at: nat, to: nat, image: seq<Byte>, from: nat, lo: nat, hi: nat, n: nat)
    requires Holds(s, at, image, from, lo, hi) && hi <= n && at + n <= |s| && to + n <= |s|
    ensures Holds(Overlay(s, to, s[at..at + n]), to, image, from, lo, hi)
  {
    var s' := Overlay(s, to, s[at..at + n]);
    forall k | to + lo <= k < to + hi
      ensures IsByte(image, k - to + from, s'[k])
    {
      assert s'[k] == s[k - to + at];
    }
  }

  /** The same bytes, counted from d places earlier. */
  lemma HoldsShift(s: seq<Byte>, at: nat, image: seq<Byte>, from: nat, d: nat, n: nat)
    requires Holds(s, at + d, image, from + d, 0, n)
    ensures Holds(s, at, image, from, d, d + n)
  {
    forall k | at + d <= k < at + d + n
      ensures IsByte(image, k - at + from, s[k])
    {
      assert IsByte(image, k - (at + d) + (from + d), s[k]);
    }
  }

  /** The same bytes, counted from d places later. */
  lemma HoldsFrom(s: seq<Byte>, at: nat, image: seq<Byte>, from: nat, d: nat, n: nat)
    requires Holds(s, at, image, from, d, d + n)
    ensures Holds(s, at + d, image, from + d, 0, n)
  {
    forall k | at + d <= k < at + d + n
      ensures IsByte(image, k - (at + d) + (from + d), s[k])
    {
      assert IsByte(image, k - at + from, s[k]);
    }
  }

  lemma HoldsItself(s: seq<Byte>, at: nat, n: nat, lo: nat)
    requires at + n <= |s|
    ensures Holds(s, at, s[at..at + n], 0, lo, n)
  {
  }

  /** What is as it was holds what it held. */
  lemma HoldsAgain(s: seq<Byte>, s': seq<Byte>, at: nat, bytes: seq<Byte>, image: seq<Byte>, from: nat, lo: nat,
                   hi: nat)
    requires at + hi <= |s| && bytes == s[at..at + hi] && Holds(s, at, image, from, lo, hi)
    requires Holds(s', at, bytes, 0, lo, hi)
    ensures Holds(s', at, image, from, lo, hi)
  {
    forall k | at + lo <= k < at + hi
      ensures IsByte(image, k - at + from, s'[k])
    {
      assert IsByte(bytes, k - at + 0, s'[k]) && IsByte(image, k - at + from, s[k]);
    }
  }

  lemma MovedOnly(s: seq<Byte>, dst: nat, src: nat, n: nat, b: Area)
    requires dst + n <= |s| && src + n <= |s|
    ensures OnlyIn(s, KernelMoved(s, dst, src, n), Area(dst, dst + n), b, b)
  {
  }

  /** The image with the bytes from lo to hi taken, over and over, from the first d of them. */
  function Echo(image: seq<Byte>, lo: nat, hi: nat, d: nat): (r: seq<Byte>)
    requires d > 0
    ensures |r| == |image|
    ensures forall j | 0 <= j < |image| :: r[j] == if lo <= j < hi then image[lo + Turn(j - lo, d)] else image[j]
  {
    seq(|image|, j requires 0 <= j < |image| => if lo <= j < hi then image[lo + Turn(j - lo, d)] else image[j])
  }

  lemma EchoByte(s: seq<Byte>, source: nat, image: seq<Byte>, from: nat, n: nat, d: nat, i: nat)
    requires Holds(s, source, image, from, 0, n) && d > 0 && i < n
    ensures IsByte(Echo(image, from, from + n, d), from + i, s[source + Turn(i, d)])
  {
    hide Echo, Turn;
    var turn := Turn(i, d);
    assert IsByte(image, source + turn - source + from, s[source + turn]);
    assert IsByte(image, source + i - source + from, s[source + i]);
    EchoAt(image, from, from + n, d, from + i);
  }

  lemma MovedByte(s: seq<Byte>, to: nat, source: nat, image: seq<Byte>, from: nat, n: nat, k: nat)
    requires to + n <= |s| && source < to && FALLBACK <= to - source < n && Holds(s, source, image, from, 0, n)
    requires to <= k < to + n
    ensures IsByte(Echo(image, from, from + n, to - source), k - to + from, KernelMoved(s, to, source, n)[k])
  {
    hide KernelMoved, Turn, Echo, Holds, IsByte;
    MovedWrongly(s, to, source, n, k - to);
    EchoByte(s, source, image, from, n, to - source, k - to);
  }

  /** What the kernel's routine makes of bytes of the image, where it does not move them rightly. */
  lemma MovedEchoes(s: seq<Byte>, to: nat, source: nat, image: seq<Byte>, from: nat, n: nat)
    requires to + n <= |s| && source < to && FALLBACK <= to - source < n && Holds(s, source, image, from, 0, n)
    ensures Holds(KernelMoved(s, to, source, n), to, Echo(image, from, from + n, to - source), from, 0, n)
  {
    hide KernelMoved, Echo, IsByte;
    MovedOnly(s, to, source, n, Area(0, 0));
    forall k: nat | to <= k < to + n
      ensures IsByte(Echo(image, from, from + n, to - source), k - to + from, KernelMoved(s, to, source, n)[k])
    {
      MovedByte(s, to, source, image, from, n, k);
    }
  }

  /** Nothing else of the image is different. */
  lemma EchoElsewhere(s: seq<Byte>, at: nat, image: seq<Byte>, from: nat, lo: nat, hi: nat, l: nat, h: nat, d: nat)
    requires Holds(s, at, image, from, lo, hi) && d > 0 && (from + hi <= l || h <= from + lo)
    ensures Holds(s, at, Echo(image, l, h, d), from, lo, hi)
  {
    forall k | at + lo <= k < at + hi
      ensures IsByte(Echo(image, l, h, d), k - at + from, s[k])
    {
      assert IsByte(image, k - at + from, s[k]);
    }
  }

  /** The bytes from lo to hi repeat themselves every d bytes. */
  ghost predicate Repeats(image: seq<Byte>, lo: nat, hi: nat, d: nat)
    requires hi <= |image|
  {
    forall j | lo + d <= j < hi :: image[j] == image[j - d]
  }

  lemma {:induction false} RepeatsFromStart(image: seq<Byte>, lo: nat, hi: nat, d: nat, j: nat)
    requires hi <= |image| && d > 0 && Repeats(image, lo, hi, d) && lo <= j < hi
    ensures image[lo + Turn(j - lo, d)] == image[j]
    decreases j
  {
    if j - lo >= d {
      RepeatsFromStart(image, lo, hi, d, j - d);
    }
  }

  /** The echo is the image if and only if these bytes repeat themselves. */
  lemma {:induction false} EchoExactly(image: seq<Byte>, start: nat, size: nat, lo: nat, hi: nat, d: nat)
    requires d > 0 && start <= lo && hi <= start + size <= |image|
    ensures Echo(image, lo, hi, d)[start..start + size] == image[start..start + size] <==> Repeats(image, lo, hi, d)
  {
    hide Echo, Turn;
    var r := Echo(image, lo, hi, d);
    if Repeats(image, lo, hi, d) {
      forall j: nat | j < |image|
        ensures r[j] == image[j]
      {
        EchoAt(image, lo, hi, d, j);
        if lo <= j < hi {
          RepeatsFromStart(image, lo, hi, d, j);
        }
      }
      assert r == image;
    }
    if r[start..start + size] == image[start..start + size] {
      forall j: nat | lo + d <= j < hi
        ensures image[j] == image[j - d]
      {
        SameAt(r, image, start, size, j);
        SameAt(r, image, start, size, j - d);
        EchoAt(image, lo, hi, d, j);
        EchoAt(image, lo, hi, d, j - d);
        OneTurn(j - lo, d);
      }
    }
  }

  lemma EchoAt(image: seq<Byte>, lo: nat, hi: nat, d: nat, j: nat)
    requires d > 0 && j < |image|
    ensures Echo(image, lo, hi, d)[j] == if lo <= j < hi then image[lo + Turn(j - lo, d)] else image[j]
  {
  }

  lemma {:induction false} TurnIsRest(k: nat, d: nat)
    requires d > 0
    ensures Turn(k, d) == k % d
    decreases k
  {
    if k >= d {
      TurnIsRest(k - d, d);
      var q, r := (k - d) / d, (k - d) % d;
      assert k - d == d * q + r;
      DivModUnique(k, d, q + 1, r);
    }
  }

  lemma OneTurn(k: nat, d: nat)
    requires 0 < d <= k
    ensures Turn(k, d) == Turn(k - d, d)
  {
  }

  lemma SameAt(a: seq<Byte>, b: seq<Byte>, start: nat, size: nat, j: nat)
    requires |a| == |b| && start <= j < start + size <= |a| && a[start..start + size] == b[start..start + size]
    ensures a[j] == b[j]
  {
    assert a[start..start + size][j - start] == a[j] && b[start..start + size][j - start] == b[j];
  }

  lemma RoundedUp(pointer: nat, align: nat, address: nat)
    requires align > 0
    requires address == if pointer % align > 0 then pointer + (align - pointer % align) else pointer
    ensures pointer <= address < pointer + align && address % align == 0
  {
    var q, r := pointer / align, pointer % align;
    assert pointer == align * q + r;
    if r > 0 {
      MulAdd(q, 1, align);
      DivModUnique(address, align, q + 1, 0);
    }
  }

  lemma LongEnough(n: nat, sector: nat)
    requires n >= 2
    ensures n * sector >= 2 * sector
  {
    MulMonotone(2, n, sector);
  }

  lemma OverlayOnly(s: seq<Byte>, dst: nat, piece: seq<Byte>, b: Area)
    requires dst + |piece| <= |s|
    ensures OnlyIn(s, Overlay(s, dst, piece), Area(dst, dst + |piece|), b, b)
  {
  }

  lemma HoldsPart(s: seq<Byte>, at: nat, image: seq<Byte>, from: nat, lo: nat, hi: nat, lo': nat, hi': nat)
    requires Holds(s, at, image, from, lo, hi) && lo <= lo' && hi' <= hi
    ensures Holds(s, at, image, from, lo', hi')
  {
  }

  /** Changes in parts of two areas are changes in the areas. */
  lemma OnlyInGrow(s: seq<Byte>, s': seq<Byte>, a: Area, t: Area, buffer: Area, temp: Area)
    requires OnlyIn(s, s', a, t, t)
    requires (buffer.from <= a.from && a.to <= buffer.to) || (temp.from <= a.from && a.to <= temp.to)
    ensures OnlyIn(s, s', buffer, temp, t)
  {
  }

  // What has to be read for a byte range

  datatype Plan = Plan(start: nat, first: nat, last: nat, head: nat, tail: nat)

  function PlanFor(start: nat, size: nat, sector: nat): Plan
    requires sector > 0 && size > 0
  {
    var end := start + size - 1;
    Plan(start, start / sector, end / sector, start % sector, end % sector + 1)
  }

  lemma StartOfPlan(start: nat, size: nat, sector: nat)
    requires sector > 0 && size > 0
    ensures PlanFor(start, size, sector).start == start
  {
  }

  lemma PlanFacts(start: nat, size: nat, sector: nat)
    requires sector > 0 && size > 0
    ensures var p := PlanFor(start, size, sector);
      && start == p.first * sector + p.head && p.head < sector
      && start + size == p.last * sector + p.tail && 1 <= p.tail <= sector && p.first <= p.last
      && (p.last - p.first) * sector == p.last * sector - p.first * sector
      && size + p.head == (p.last - p.first) * sector + p.tail
  {
    var end := start + size - 1;
    var p := PlanFor(start, size, sector);
    assert start == sector * (start / sector) + start % sector;
    assert end == sector * (end / sector) + end % sector;
    if p.last < p.first {
      MulMonotone(p.last + 1, p.first, sector);
      MulAdd(p.last, 1, sector);
    } else {
      MulAdd(p.last - p.first, p.first, sector);
    }
  }
}
