/** Logical sectors of a FAT volume, and the physical sectors they are read with (Boot/Legacy/Shared/Disk/Disk.c). */
module FatSectors {
  import opened Limits
  import opened Bits
  import opened Products

  const CHUNK := 32768             // half of the stack, the most that is read at once

  function U16(x: nat): nat { x % LIMIT_16 }
  function U32(x: nat): nat { x % LIMIT_32 }

  function Quotient(a: nat, b: nat): nat
    requires b > 0
  {
    a / b
  }

  /** Sizes of logical and of physical sectors; one has to divide the other. */
  datatype Sizes = Sizes(logical: nat, physical: nat) {
    predicate Valid() {
      && 128 < logical <= CHUNK && logical % 4 == 0 && 0 < physical < LIMIT_16
      && (physical < logical ==> logical % physical == 0)
      && (physical >= logical ==> physical % logical == 0)
    }

    /** Physical sectors in a logical one. */
    function Parts(): nat
      requires Valid()
    {
      if physical < logical then logical / physical else 1
    }

    /** Logical sectors in a physical one. */
    function Group(): nat
      requires Valid()
    {
      if physical < logical then 1 else physical / logical
    }

    /** The sector's number fits 32 bits, before and after the translation. */
    predicate Addressable(lba: nat)
      requires Valid()
    {
      lba < LIMIT_32 && lba * Parts() < LIMIT_32
    }

    /** Do the sectors that are read hold all the bytes that are then copied? */
    predicate Suffices(lba: nat, n: nat)
      requires Valid() && n > 0
    {
      lba % Group() * logical + n * logical <= NumSectors(n) * physical
    }

    function PhysicalLba(lba: nat): nat
      requires Valid()
    {
      if physical < logical then lba * Parts() else Quotient(lba, Group())
    }

    function NumSectors(n: nat): nat
      requires Valid() && n > 0
    {
      if physical < logical then n * Parts() else Quotient(n - 1, Group()) + 1
    }

    /** Where in the sectors that are read the wanted bytes start. */
    function Offset(lba: nat): nat
      requires Valid()
    {
      lba % Group() * logical
    }

    /** The physical sector that the code computes, in 32 bits. */
    function WrappedLba(lba: nat): nat
      requires Valid()
    {
      if physical < logical then U32(lba * Parts()) else Quotient(lba, Group())
    }

    /** Where on the device the bytes are taken from. */
    function PlaceRead(lba: nat): nat
      requires Valid()
    {
      WrappedLba(lba) * physical + Offset(lba)
    }
  }

  lemma Below32(x: nat)
    requires x < LIMIT_32
    ensures U32(x) == x
  {
  }

  lemma SizesRatio(z: Sizes)
    requires z.Valid()
    ensures z.Parts() >= 1 && z.Group() >= 1 && z.logical > 0 && z.physical > 0
    ensures z.physical < z.logical ==> z.logical == z.Parts() * z.physical && z.Group() == 1
    ensures z.physical >= z.logical ==> z.physical == z.Group() * z.logical && z.Parts() == 1
  {
    if z.physical < z.logical {
      assert z.logical == z.physical * (z.logical / z.physical) + z.logical % z.physical;
      if z.logical / z.physical == 0 {
        DivModUnique(z.logical, z.physical, 0, 0);
      }
    } else {
      assert z.physical == z.logical * (z.physical / z.logical) + z.physical % z.logical;
      if z.physical / z.logical == 0 {
        DivModUnique(z.physical, z.logical, 0, 0);
      }
    }
  }

  lemma GroupPlace(lba: nat, g: nat, logical: nat)
    requires g > 0 && logical > 0
    ensures Quotient(lba, g) * (g * logical) + lba % g * logical == lba * logical
    ensures lba % g * logical < g * logical
  {
    var q, o := Quotient(lba, g), lba % g;
    assert lba == q * g + o;
    MulAdd(q * g, o, logical);
    MulAssoc(q, g, logical);
    MulMonotone(o + 1, g, logical);
    MulAdd(o, 1, logical);
  }

  /** The translation keeps the place on the device. */
  lemma {:induction false} SamePlace(z: Sizes, lba: nat)
    requires z.Valid()
    ensures z.PhysicalLba(lba) * z.physical + z.Offset(lba) == lba * z.logical
    ensures z.Offset(lba) < z.physical
  {
    hide Sizes.Valid, Sizes.Group, Sizes.Parts;
    SizesRatio(z);
    if z.physical < z.logical {
      MulAssoc(lba, z.Parts(), z.physical);
      assert lba % 1 == 0;
    } else {
      GroupPlace(lba, z.Group(), z.logical);
    }
  }

  /** A sector in reach of 32 bits is read from where it is. */
  lemma PlaceIs(z: Sizes, lba: nat)
    requires z.Valid() && z.Addressable(lba)
    ensures z.WrappedLba(lba) == z.PhysicalLba(lba) && z.PlaceRead(lba) == lba * z.logical
  {
    hide U32, Sizes.Valid, Sizes.Group, Sizes.Parts, Sizes.Offset;
    SamePlace(z, lba);
    Below32(lba * z.Parts());
  }

  /** The exact condition: the last sector must not reach into one more group than the number of sectors asks for. */
  lemma {:induction false} SufficesExactly(z: Sizes, lba: nat, n: nat)
    requires z.Valid() && n > 0
    ensures z.Suffices(lba, n) <==> lba % z.Group() + (n - 1) % z.Group() < z.Group()
  {
    hide Sizes.Valid, Sizes.Group, Sizes.Parts, Quotient;
    SizesRatio(z);
    if z.physical < z.logical {
      MulAssoc(n, z.Parts(), z.physical);
      OneGroup(lba, n, z.logical);
    } else {
      GroupsSuffice(lba % z.Group(), n, z.Group(), z.logical);
    }
  }

  lemma OneGroup(lba: nat, n: nat, logical: nat)
    requires n > 0
    ensures lba % 1 == 0 && (n - 1) % 1 == 0 && lba % 1 * logical == 0
  {
    assert lba % 1 == 0;
  }

  lemma GroupsSuffice(o: nat, n: nat, g: nat, logical: nat)
    requires o < g && n > 0 && logical > 0
    ensures o * logical + n * logical <= (Quotient(n - 1, g) + 1) * (g * logical) <==> o + (n - 1) % g < g
  {
    hide Quotient;
    var q, t := Quotient(n - 1, g), (n - 1) % g;
    GroupOf(n - 1, g);
    MulAssoc(q + 1, g, logical);
    MulAdd(o, n, logical);
    MulAdd(q, 1, g);
    if o + t < g {
      MulMonotone(o + n, (q + 1) * g, logical);
    } else if (o + n) * logical <= ((q + 1) * g) * logical {
      CancelFactor(o + n, (q + 1) * g, logical);
    }
  }

  lemma GroupOf(n: nat, g: nat)
    requires g > 0
    ensures n == Quotient(n, g) * g + n % g
  {
    QuotientIs(n, g);
  }

  /** Two logical sectors of 512 bytes from an odd one on, in sectors of 1024 bytes: half is never read. */
  lemma OddStartIsNotServed()
    ensures Sizes(512, 1024).Valid() && !Sizes(512, 1024).Suffices(1, 2)
  {
    var z := Sizes(512, 1024);
    assert z.Group() == 2;
    SufficesExactly(z, 1, 2);
  }

  lemma OneSectorSuffices(z: Sizes, lba: nat)
    requires z.Valid()
    ensures z.Suffices(lba, 1)
  {
    SufficesExactly(z, lba, 1);
    SizesRatio(z);
  }

  lemma GroupsOnDevice(lba: nat, n: nat, g: nat, sectors: nat)
    requires g > 0 && n > 0 && lba % g + (n - 1) % g < g && lba + n <= sectors * g
    ensures Quotient(lba, g) + Quotient(n - 1, g) + 1 <= sectors
  {
    var q, d := Quotient(lba, g), Quotient(n - 1, g);
    assert lba == q * g + lba % g && n - 1 == d * g + (n - 1) % g;
    MulAdd(q, d, g);
    if q + d >= sectors {
      MulMonotone(sectors, q + d, g);
    }
  }

  /** On a device of whole sectors, what lies on the device can be read. */
  lemma {:induction false} ReadsStayOnDevice(z: Sizes, lba: nat, n: nat, sectors: nat)
    requires z.Valid() && n > 0 && z.Suffices(lba, n)
    requires (lba + n) * z.logical <= sectors * z.physical
    ensures (z.PhysicalLba(lba) + z.NumSectors(n)) * z.physical <= sectors * z.physical
  {
    hide Sizes.Valid, Sizes.Group, Sizes.Parts, Sizes.Suffices;
    SizesRatio(z);
    SufficesExactly(z, lba, n);
    if z.physical < z.logical {
      MulAdd(lba, n, z.Parts());
      MulAssoc(lba + n, z.Parts(), z.physical);
    } else {
      var g := z.Group();
      MulAssoc(sectors, g, z.logical);
      CancelFactor(lba + n, sectors * g, z.logical);
      GroupsOnDevice(lba, n, g, sectors);
      MulMonotone(Quotient(lba, g) + (Quotient(n - 1, g) + 1), sectors, z.physical);
    }
  }

  lemma QuotientIs(x: nat, l: nat)
    requires l > 0
    ensures x == Quotient(x, l) * l + x % l && 0 <= Quotient(x, l) <= x
  {
    var q := Quotient(x, l);
    assert x == l * (x / l) + x % l;
    MulMonotone(1, l, q);
  }

  lemma Below16(x: nat)
    requires x < LIMIT_16
    ensures U16(x) == x
  {
  }

  /** The number of physical sectors fits 16 bits, for as much as is read at once. */
  lemma CountFits(z: Sizes, n: nat)
    requires z.Valid() && 0 < n && n * z.logical <= CHUNK
    ensures U16(z.NumSectors(n)) == z.NumSectors(n)
  {
    hide U16, Quotient, Sizes.Valid, Sizes.Group, Sizes.Parts;
    SizesRatio(z);
    MulMonotone(1, z.logical, n);
    if z.physical < z.logical {
      MulAssoc(n, z.Parts(), z.physical);
      MulMonotone(1, z.physical, n * z.Parts());
    } else {
      QuotientIs(n - 1, z.Group());
    }
    Below16(z.NumSectors(n));
  }
}
