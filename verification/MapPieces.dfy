/**
 What the clipping of the memory map keeps: each type-1 entry on its own, between what is reserved before it and the
 next entry; and which free memory is lost where entries overlap.
 */
module MapPieces {
  import opened Limits
  import opened UsableMemory
  import opened MemoryMap

  /** The end of all that other types take before entry i. */
  function Reserved(m: seq<Raw>, i: nat): nat
    requires i <= |m|
    decreases i
  {
    if i == 0 then 0
    else if m[i - 1].kind != 1 && m[i - 1].End() > Reserved(m, i - 1) then m[i - 1].End()
    else Reserved(m, i - 1)
  }

  /** What is left of a type-1 entry. */
  function PieceStart(m: seq<Raw>, i: nat): nat
    requires i < |m|
  {
    ClipStart(m, i, Reserved(m, i))
  }

  predicate Kept(m: seq<Raw>, i: nat)
    requires i < |m|
  {
    m[i].kind == 1 && PieceStart(m, i) + 0x2_0000 <= ClipEnd(m, i)
  }

  /** The pieces that are large enough, from entry i on. */
  function Pieces(m: seq<Raw>, i: nat): seq<Entry>
    requires i <= |m|
    decreases |m| - i
  {
    if i == |m| then []
    else if Kept(m, i) then [Entry(PieceStart(m, i), ClipEnd(m, i) - PieceStart(m, i))] + Pieces(m, i + 1)
    else Pieces(m, i + 1)
  }

  /** What is taken so far matters only as far as other types have taken it. */
  ghost predicate Matters(m: seq<Raw>, i: nat, min: nat)
    requires i <= |m|
  {
    min == Reserved(m, i) || (Reserved(m, i) <= min && min % PAGE_SIZE == 0 && (i < |m| ==> min <= m[i].base))
  }

  lemma SkippedMatters(m: seq<Raw>, i: nat, min: nat)
    requires Sorted(m) && i < |m| && Matters(m, i, min)
    requires m[i].kind == 1 || m[i].End() <= min
    ensures Matters(m, i + 1, min)
  {
  }

  lemma TakenMatters(m: seq<Raw>, i: nat, min: nat)
    requires Sorted(m) && i < |m| && Matters(m, i, min) && m[i].kind == 1
    requires ClipStart(m, i, min) <= ClipEnd(m, i)
    ensures Matters(m, i + 1, ClipEnd(m, i))
  {
  }

  lemma SameStart(m: seq<Raw>, i: nat, min: nat)
    requires i < |m| && Matters(m, i, min)
    ensures ClipStart(m, i, min) == PieceStart(m, i)
  {
    hide Reserved;
  }

  /** An entry that ends in what is taken is empty, or all of it is. */
  lemma NothingLeft(m: seq<Raw>, i: nat, min: nat)
    requires i < |m| && Matters(m, i, min) && m[i].End() <= min
    ensures !Kept(m, i)
  {
    hide Reserved;
    assert ClipEnd(m, i) <= m[i].End();
  }

  /** The loop, which carries on from what it has taken, finds each entry's own piece. */
  lemma {:induction false} ClipIsPieces(m: seq<Raw>, i: nat, min: nat)
    requires i <= |m| && Sorted(m) && Physical(m) && min <= PHYS_LIMIT && NoUnderflow(m, i, min) && Matters(m, i, min)
    ensures Clip(m, i, min) == Pieces(m, i)
    decreases |m| - i
  {
    hide Sorted, Physical, Matters, ClipStart, ClipEnd, PieceStart;
    if i == |m| {
    } else if m[i].End() <= min {
      NothingLeft(m, i, min);
      SkippedMatters(m, i, min);
      ClipIsPieces(m, i + 1, min);
    } else if m[i].kind != 1 {
      EndIsPhysical(m, i);
      ReservedMatters(m, i, min);
      ClipIsPieces(m, i + 1, m[i].End());
    } else {
      ClipBounds(m, i, min);
      SameStart(m, i, min);
      if Minus(ClipEnd(m, i), ClipStart(m, i, min)) < ENTRY_LIMIT {
        SkippedMatters(m, i, min);
        ClipIsPieces(m, i + 1, min);
      } else {
        TakenMatters(m, i, min);
        ClipIsPieces(m, i + 1, ClipEnd(m, i));
      }
    }
  }

  lemma ReservedMatters(m: seq<Raw>, i: nat, min: nat)
    requires i < |m| && Matters(m, i, min) && m[i].kind != 1 && min < m[i].End()
    ensures Matters(m, i + 1, m[i].End())
  {
  }

  lemma {:induction false} PiecesArePhysical(m: seq<Raw>, i: nat)
    requires i <= |m| && Physical(m)
    ensures forall x | 0 <= x < |Pieces(m, i)| :: Pieces(m, i)[x].End() <= PHYS_LIMIT
    decreases |m| - i
  {
    hide PieceStart;
    if i < |m| {
      PiecesArePhysical(m, i + 1);
    }
  }

  /** The usable list is right, and complete, exactly when no clipped entry underflows. */
  lemma UsableListExactly(m: seq<Raw>)
    requires Sorted(m) && Physical(m)
    ensures NoUnderflow(m, 0, 0) <==> GoodList(m, 0, 0, Clip(m, 0, 0))
    ensures NoUnderflow(m, 0, 0) <==> Clip(m, 0, 0) == Pieces(m, 0)
  {
    hide GoodElement, Pieces, Clip, NoUnderflow;
    if NoUnderflow(m, 0, 0) {
      ClipIsGood(m, 0, 0);
      MattersFirst(m);
      ClipIsPieces(m, 0, 0);
    } else {
      UnderflowSpoils(m, 0, 0);
      PiecesArePhysical(m, 0);
      var u := Clip(m, 0, 0);
      var x :| 0 <= x < |u| && u[x].End() >= LIMIT_64;
      PastTheEnd(m, u[x]);
    }
  }

  lemma PastTheEnd(m: seq<Raw>, e: Entry)
    requires Physical(m) && e.End() >= LIMIT_64
    ensures !GoodElement(m, 0, 0, e)
  {
  }

  /** What is left of an entry, once it is aligned to pages, must not end before it starts. */
  predicate Fair(m: seq<Raw>, i: nat)
    requires i < |m|
  {
    m[i].kind == 1 && m[i].End() > Reserved(m, i) ==> PieceStart(m, i) <= ClipEnd(m, i)
  }

  ghost predicate AllFair(m: seq<Raw>, i: nat) {
    forall k | i <= k < |m| :: Fair(m, k)
  }

  /** Nothing underflows exactly when no type-1 entry that reaches past all that is reserved before it does. */
  lemma NoUnderflowExactly(m: seq<Raw>)
    requires Sorted(m) && Physical(m)
    ensures NoUnderflow(m, 0, 0) <==> AllFair(m, 0)
  {
    hide NoUnderflow, AllFair;
    MattersFirst(m);
    NoUnderflowFrom(m, 0, 0);
  }

  lemma {:induction false} NoUnderflowFrom(m: seq<Raw>, i: nat, min: nat)
    requires i <= |m| && Sorted(m) && Physical(m) && min <= PHYS_LIMIT && Matters(m, i, min)
    ensures NoUnderflow(m, i, min) <==> AllFair(m, i)
    decreases |m| - i
  {
    hide Sorted, Physical, ClipStart, ClipEnd, PieceStart, Fair, Matters;
    if i < |m| {
      FairFirst(m, i);
      EndIsPhysical(m, i);
      ClipBounds(m, i, min);
      FairHere(m, i, min);
      SameStart(m, i, min);
      if m[i].End() <= min {
        SkippedMatters(m, i, min);
        NoUnderflowFrom(m, i + 1, min);
      } else if m[i].kind != 1 {
        ReservedMatters(m, i, min);
        NoUnderflowFrom(m, i + 1, m[i].End());
      } else if ClipStart(m, i, min) <= ClipEnd(m, i) {
        SkippedMatters(m, i, min);
        TakenMatters(m, i, min);
        var size := Minus(ClipEnd(m, i), ClipStart(m, i, min));
        NoUnderflowFrom(m, i + 1, if size < ENTRY_LIMIT then min else ClipEnd(m, i));
      }
    }
  }

  lemma FairFirst(m: seq<Raw>, i: nat)
    requires i < |m|
    ensures AllFair(m, i) <==> Fair(m, i) && AllFair(m, i + 1)
  {
    hide Fair;
  }

  lemma FairHere(m: seq<Raw>, i: nat, min: nat)
    requires i < |m| && Sorted(m) && Matters(m, i, min)
    ensures Fair(m, i) <==> (m[i].End() <= min || m[i].kind != 1 || PieceStart(m, i) <= ClipEnd(m, i))
  {
    hide Reserved;
    if m[i].End() <= min && min != Reserved(m, i) {
      // An empty entry, where the piece before it ends
      assert m[i].limit == 0 && PieceStart(m, i) == m[i].base == ClipEnd(m, i);
    }
  }

  // Which addresses these are

  ghost predicate Free(m: seq<Raw>, a: nat) {
    && (exists i :: 0 <= i < |m| && m[i].kind == 1 && m[i].Covers(a))
    && (forall i | 0 <= i < |m| && m[i].kind != 1 :: !m[i].Covers(a))
  }

  /** The last entry that begins at or below an address. */
  predicate LastBefore(m: seq<Raw>, a: nat, i: nat) {
    i < |m| && m[i].base <= a && (i + 1 < |m| ==> a < m[i + 1].base)
  }

  /** Free memory of which the last entry that begins before it says that it is free, if that entry's piece is large. */
  ghost predicate Survives(m: seq<Raw>, a: nat) {
    Free(m, a) && exists i: nat :: LastBefore(m, a, i) && m[i].Covers(a) && Kept(m, i)
  }

  predicate InPiece(m: seq<Raw>, i: nat, a: nat) {
    i < |m| && Kept(m, i) && PieceStart(m, i) <= a < ClipEnd(m, i)
  }

  lemma {:induction false} PiecesContain(m: seq<Raw>, i: nat, a: nat)
    requires i <= |m|
    ensures Contains(Pieces(m, i), a) <==> exists k: nat :: i <= k && InPiece(m, k, a)
    decreases |m| - i
  {
    hide ClipEnd, PieceStart, Contains;
    if i < |m| {
      PiecesContain(m, i + 1, a);
      if Kept(m, i) {
        ContainsMore(Entry(PieceStart(m, i), ClipEnd(m, i) - PieceStart(m, i)), Pieces(m, i + 1), a);
      }
      MoreInPieces(m, i, a);
    } else {
      NothingContains(a);
    }
  }

  lemma NothingContains(a: nat)
    ensures !Contains([], a)
  {
  }

  lemma MoreInPieces(m: seq<Raw>, i: nat, a: nat)
    ensures (exists k: nat :: i <= k && InPiece(m, k, a))
      <==> InPiece(m, i, a) || exists k: nat :: i + 1 <= k && InPiece(m, k, a)
  {
    hide InPiece;
    if k: nat :| i <= k && InPiece(m, k, a) {
      assert k == i || i + 1 <= k;
    }
  }

  lemma ContainsMore(e: Entry, u: seq<Entry>, a: nat)
    ensures Contains([e] + u, a) <==> e.base <= a < e.End() || Contains(u, a)
  {
    var v := [e] + u;
    if e.base <= a < e.End() {
      assert v[0] == e;
    }
    if Contains(u, a) {
      var i :| 0 <= i < |u| && u[i].base <= a < u[i].End();
      assert v[i + 1] == u[i];
    }
  }

  lemma {:induction false} ReservedIs(m: seq<Raw>, i: nat)
    requires i <= |m|
    ensures forall j | 0 <= j < i && m[j].kind != 1 :: m[j].End() <= Reserved(m, i)
    ensures Reserved(m, i) == 0 || exists j :: 0 <= j < i && m[j].kind != 1 && m[j].End() == Reserved(m, i)
    decreases i
  {
    if i > 0 {
      ReservedIs(m, i - 1);
      if Reserved(m, i) == Reserved(m, i - 1) != 0 {
        var j :| 0 <= j < i - 1 && m[j].kind != 1 && m[j].End() == Reserved(m, i - 1);
        assert m[j].End() == Reserved(m, i);
      } else if Reserved(m, i) != 0 {
        assert m[i - 1].kind != 1 && m[i - 1].End() == Reserved(m, i);
      }
    }
  }

  lemma ReservedIsPaged(m: seq<Raw>, i: nat)
    requires i <= |m| && WholePages(m)
    ensures Reserved(m, i) % PAGE_SIZE == 0
  {
    ReservedIs(m, i);
    if Reserved(m, i) != 0 {
      var j :| 0 <= j < i && m[j].kind != 1 && m[j].End() == Reserved(m, i);
      WholePageEnd(m, j);
    }
  }

  lemma PieceOfPages(m: seq<Raw>, i: nat)
    requires i < |m| && WholePages(m)
    ensures PieceStart(m, i) == if m[i].base < Reserved(m, i) then Reserved(m, i) else m[i].base
    ensures ClipEnd(m, i) == if i + 1 < |m| && m[i].End() > m[i + 1].base then m[i + 1].base else m[i].End()
  {
    hide Reserved;
    ReservedIsPaged(m, i);
    WholePageEnd(m, i);
  }

  /** The piece of an entry is what it covers of free memory, up to the next entry. */
  lemma PieceByte(m: seq<Raw>, i: nat, a: nat)
    requires i < |m| && WholePages(m) && Sorted(m) && m[i].kind == 1
    ensures PieceStart(m, i) <= a < ClipEnd(m, i) <==> Free(m, a) && LastBefore(m, a, i) && m[i].Covers(a)
  {
    hide PieceStart, ClipEnd, Reserved;
    PieceOfPages(m, i);
    if PieceStart(m, i) <= a < ClipEnd(m, i) {
      ReservedIs(m, i);
      forall j | 0 <= j < |m| && m[j].kind != 1
        ensures !m[j].Covers(a)
      {
        if j > i {
          assert m[i + 1].base <= m[j].base;
        }
      }
    }
    if Free(m, a) && m[i].base <= a {
      FreeIsBehind(m, i, a);
    }
  }

  lemma FreeIsBehind(m: seq<Raw>, i: nat, a: nat)
    requires i < |m| && Sorted(m) && Free(m, a) && m[i].base <= a
    ensures Reserved(m, i) <= a
  {
    hide Reserved;
    ReservedIs(m, i);
    if Reserved(m, i) != 0 {
      var j :| 0 <= j < i && m[j].kind != 1 && m[j].End() == Reserved(m, i);
      assert !m[j].Covers(a) && m[j].base <= m[i].base;
    }
  }

  /** Of a map of whole pages exactly this memory comes into the usable list. */
  lemma {:induction false} SurvivesExactly(m: seq<Raw>, a: nat)
    requires Sorted(m) && Physical(m) && WholePages(m) && NoUnderflow(m, 0, 0)
    ensures Contains(Clip(m, 0, 0), a) <==> Survives(m, a)
  {
    hide Sorted, Physical, WholePages, NoUnderflow, Clip, Pieces, Free, Contains, PieceStart, ClipEnd;
    MattersFirst(m);
    ClipIsPieces(m, 0, 0);
    PiecesContain(m, 0, a);
    if k: nat :| InPiece(m, k, a) {
      PieceByte(m, k, a);
    }
    if Survives(m, a) {
      var i: nat :| LastBefore(m, a, i) && m[i].Covers(a) && Kept(m, i);
      PieceByte(m, i, a);
      assert InPiece(m, i, a);
    }
  }

  lemma MattersFirst(m: seq<Raw>)
    ensures Matters(m, 0, 0)
  {
  }

  /** Free memory behind the end of the last entry that begins before it is lost. */
  lemma BehindIsLost(m: seq<Raw>, a: nat, i: nat)
    requires Sorted(m) && Physical(m) && WholePages(m) && NoUnderflow(m, 0, 0)
    requires LastBefore(m, a, i) && !m[i].Covers(a)
    ensures !Contains(Clip(m, 0, 0), a)
  {
    hide Sorted, Physical, WholePages, NoUnderflow, Clip, Free, Contains, Kept;
    SurvivesExactly(m, a);
    forall k: nat | LastBefore(m, a, k)
      ensures k == i
    {
      OneLast(m, a, i, k);
    }
  }

  lemma OneLast(m: seq<Raw>, a: nat, i: nat, k: nat)
    requires Sorted(m) && LastBefore(m, a, i) && LastBefore(m, a, k)
    ensures i == k
  {
  }

  /** A page that is reserved in the middle of a free entry takes all that is behind it away. */
  lemma ReservedPageHides()
    ensures var m := [Raw(0x10_0000, 0x20_0000, 1), Raw(0x14_0000, 0x1000, 2)];
      && Sorted(m) && Physical(m) && WholePages(m) && NoUnderflow(m, 0, 0)
      && Clip(m, 0, 0) == [Entry(0x10_0000, 0x4_0000)] && Free(m, 0x14_1000)
  {
    var m := [Raw(0x10_0000, 0x20_0000, 1), Raw(0x14_0000, 0x1000, 2)];
    assert ClipStart(m, 0, 0) == 0x10_0000 && ClipEnd(m, 0) == 0x14_0000;
    assert Clip(m, 1, 0x14_0000) == Clip(m, 2, 0x14_1000) == [];
    assert NoUnderflow(m, 1, 0x14_0000);
    assert m[0].Covers(0x14_1000);
  }

  // Where nothing overlaps, nothing is lost

  ghost predicate Disjoint(m: seq<Raw>) {
    forall i, j | 0 <= i < j < |m| :: m[i].End() <= m[j].base
  }

  /** The type-1 entries of at least 128 KiB, as they are. */
  function LargeOnes(m: seq<Raw>, i: nat): seq<Entry>
    requires i <= |m|
    decreases |m| - i
  {
    if i == |m| then []
    else if m[i].kind == 1 && m[i].limit >= 0x2_0000 then [Entry(m[i].base, m[i].limit)] + LargeOnes(m, i + 1)
    else LargeOnes(m, i + 1)
  }

  lemma DisjointPiece(m: seq<Raw>, i: nat)
    requires i < |m| && WholePages(m) && Disjoint(m)
    ensures PieceStart(m, i) == m[i].base && ClipEnd(m, i) == m[i].End()
  {
    hide PieceStart, ClipEnd, Reserved;
    PieceOfPages(m, i);
    ReservedIs(m, i);
  }

  lemma {:induction false} DisjointPieces(m: seq<Raw>, i: nat)
    requires i <= |m| && WholePages(m) && Disjoint(m)
    ensures Pieces(m, i) == LargeOnes(m, i)
    decreases |m| - i
  {
    hide PieceStart, ClipEnd, WholePages, Disjoint;
    if i < |m| {
      DisjointPiece(m, i);
      DisjointPieces(m, i + 1);
    }
  }

  lemma DisjointIsSorted(m: seq<Raw>)
    requires Disjoint(m)
    ensures Sorted(m) && AtMostTwice(m)
  {
  }

  /**
   Of a map of whole-page entries that do not overlap, the usable list is the type-1 entries that are large enough.
   */
  lemma NothingIsLost(m: seq<Raw>)
    requires Physical(m) && WholePages(m) && Disjoint(m)
    ensures Clip(m, 0, 0) == LargeOnes(m, 0)
  {
    hide Physical, WholePages, Disjoint, Clip, Pieces, LargeOnes, NoUnderflow;
    DisjointIsSorted(m);
    StartsFromNothing(m);
    WholePagesDoNotUnderflow(m, 0, 0);
    MattersFirst(m);
    ClipIsPieces(m, 0, 0);
    DisjointPieces(m, 0);
  }

  lemma StartsFromNothing(m: seq<Raw>)
    ensures TakenFrom(m, 0, 0)
  {
  }

  /**
   From a firmware map of whole-page entries, at most two of them over any address, sorting and clipping make the usable
   map that the rest of the boot stage needs, with all the memory in it that survives.
   */
  lemma FirmwareMapIsUsable(m: seq<Raw>, a: nat)
    requires Sorted(m) && Physical(m) && WholePages(m) && AtMostTwice(m)
    ensures var u := Clip(m, 0, 0);
      && GoodList(m, 0, 0, u) && u == Pieces(m, 0) && (Contains(u, a) <==> Survives(m, a))
      && (0 < |u| < 256 ==> UsableMap(u))
  {
    hide Physical, WholePages, Sorted, AtMostTwice, Clip, Pieces, NoUnderflow, GoodList, Contains, Survives;
    StartsFromNothing(m);
    WholePagesDoNotUnderflow(m, 0, 0);
    UsableListExactly(m);
    SurvivesExactly(m, a);
    if 0 < |Clip(m, 0, 0)| < 256 {
      GoodListIsUsable(m, Clip(m, 0, 0));
    }
  }
}
