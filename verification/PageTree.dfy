/**
 Table pages as a tree.  Every table page has one place, its level and its number within the level,
 and every entry leads to the page whose place is the entry's own slot one level down.  Two places
 never share a page, so that an entry can be changed without any other route noticing.
 */
module PageTree {
  import opened Limits
  import opened Options
  import opened PageWalk
  import opened PageEntry

  datatype Place = Place(level: nat, index: nat)

  type Places = map<nat, Place>

  ghost predicate EntryFits(e: nat, level: nat, slot: nat, own: Places)
    requires level >= 1
  {
    || level == 1
    || e == 0
    || (level == 2 && Decode(2, e).Leaf?)
    || (&& Decode(level, e).Table?
        && Decode(level, e).address in own
        && own[Decode(level, e).address] == Place(level - 1, slot)
        && TablePointer(e) == Decode(level, e).address)
  }

  ghost predicate TableFits(mem: Memory, own: Places, p: nat)
    requires p in own
  {
    && p in mem && p % PAGE_SIZE == 0 && 0 < p < 0x1_0000_0000
    && 1 <= own[p].level <= 4
    && forall i | 0 <= i < 512 :: EntryFits(mem[p][i], own[p].level, 512 * own[p].index + i, own)
  }

  ghost predicate Tree(mem: Memory, root: nat, own: Places) {
    && root in own && own[root] == Place(4, 0)
    && forall p | p in own :: TableFits(mem, own, p)
  }

  /** The table page of a level through which the addresses of a slot one level up are translated. */
  function TableAt(mem: Memory, root: nat, level: nat, index: nat): Option<nat>
    requires level <= 4
    decreases 4 - level
  {
    if level == 4 then
      if index == 0 then Some(root) else None
    else
      match TableAt(mem, root, level + 1, index / 512)
      case None => None
      case Some(p) =>
        if p !in mem then None
        else
          match Decode(level + 1, mem[p][index % 512])
          case Table(next) => Some(next)
          case _ => None
  }

  lemma {:induction false} TableAtPlace(mem: Memory, root: nat, own: Places, level: nat, index: nat)
    requires Tree(mem, root, own) && 1 <= level <= 4
    ensures var t := TableAt(mem, root, level, index);
      t.Some? ==> t.value in own && own[t.value] == Place(level, index)
    decreases 4 - level
  {
    if level < 4 && TableAt(mem, root, level, index).Some? {
      TableAtPlace(mem, root, own, level + 1, index / 512);
      var p := TableAt(mem, root, level + 1, index / 512).value;
      assert TableFits(mem, own, p);
      assert EntryFits(mem[p][index % 512], level + 1, index, own);
    }
  }

  /** Different places are served by different pages: the tables reachable from the root form a tree. */
  lemma TablesAreDistinct(mem: Memory, root: nat, own: Places, l0: nat, k0: nat, l1: nat, k1: nat)
    requires Tree(mem, root, own) && 1 <= l0 <= 4 && 1 <= l1 <= 4
    requires TableAt(mem, root, l0, k0).Some?
    requires TableAt(mem, root, l0, k0) == TableAt(mem, root, l1, k1)
    ensures l0 == l1 && k0 == k1
  {
    TableAtPlace(mem, root, own, l0, k0);
    TableAtPlace(mem, root, own, l1, k1);
  }

  /** The walk of an address passes through the table at its place. */
  lemma {:induction false} WalkVia(mem: Memory, root: nat, level: nat, va: nat)
    requires 1 <= level <= 4 && va < VIRT_LIMIT
    requires TableAt(mem, root, level, Slot(va, level + 1)).Some?
    ensures LeafOf(mem, root, va) == LeafFrom(mem, TableAt(mem, root, level, Slot(va, level + 1)).value, level, va)
    decreases 4 - level
  {
    if level < 4 {
      assert Slot(va, level + 2) == Slot(va, level + 1) / 512;
      WalkVia(mem, root, level + 1, va);
    } else {
      SlotShifts(va);
    }
  }

  // Changing one entry

  ghost predicate Same(mem: Memory, mem': Memory, own: Places, q: nat, i: nat) {
    forall p | p in own && p in mem ::
      p in mem' && forall j | 0 <= j < 512 && !(p == q && j == i) :: mem'[p][j] == mem[p][j]
  }

  /** A walk that does not go through the changed entry keeps its result, and so does one for which
      the changed entry means the same as before. */
  lemma {:induction false} WalkFrame(mem: Memory, mem': Memory, root: nat, own: Places, q: nat, i: nat,
                                     p: nat, level: nat, va: nat)
    requires Tree(mem, root, own) && Same(mem, mem', own, q, i)
    requires q in own && i < 512 && p in own && own[p] == Place(level, Slot(va, level + 1))
    requires
      || Slot(va, own[q].level) != 512 * own[q].index + i
      || level < own[q].level
      || (Decode(own[q].level, mem[q][i]).Table? && Decode(own[q].level, mem'[q][i]) == Decode(own[q].level, mem[q][i]))
    ensures LeafFrom(mem', p, level, va) == LeafFrom(mem, p, level, va)
    decreases level
  {
    assert TableFits(mem, own, p);
    var d := Slot(va, level) % 512;
    assert Slot(va, level) == 512 * own[p].index + d;
    assert EntryFits(mem[p][d], level, Slot(va, level), own);
    match Decode(level, mem[p][d])
    case Table(next) =>
      if level > 1 {
        WalkFrame(mem, mem', root, own, q, i, next, level - 1, va);
      }
    case _ =>
  }

  /** Tables at or above the level of the changed entry stay where they are. */
  lemma {:induction false} TableAtFrame(mem: Memory, mem': Memory, root: nat, own: Places, q: nat, i: nat,
                                        level: nat, index: nat)
    requires Tree(mem, root, own) && Same(mem, mem', own, q, i)
    requires q in own && i < 512 && own[q].level <= level <= 4
    ensures TableAt(mem', root, level, index) == TableAt(mem, root, level, index)
    decreases 4 - level
  {
    hide Decode, Tree;
    if level < 4 {
      TableAtFrame(mem, mem', root, own, q, i, level + 1, index / 512);
      TableAtPlace(mem, root, own, level + 1, index / 512);
      var t := TableAt(mem, root, level + 1, index / 512);
      if t.Some? {
        InTree(mem, root, own, t.value);
        assert mem'[t.value][index % 512] == mem[t.value][index % 512];
      }
    }
  }

  lemma InTree(mem: Memory, root: nat, own: Places, p: nat)
    requires Tree(mem, root, own) && p in own
    ensures p in mem
  {
    assert TableFits(mem, own, p);
  }

  ghost predicate UpperTablesKept(mem: Memory, mem': Memory, root: nat, from: nat) {
    forall level, index | from <= level <= 4 ::
      TableAt(mem', root, level, index) == TableAt(mem, root, level, index)
  }

  lemma UpperFrame(mem: Memory, mem': Memory, root: nat, own: Places, q: nat, i: nat)
    requires Tree(mem, root, own) && Same(mem, mem', own, q, i) && q in own && i < 512
    ensures UpperTablesKept(mem, mem', root, own[q].level)
  {
    forall level, index | own[q].level <= level <= 4
      ensures TableAt(mem', root, level, index) == TableAt(mem, root, level, index)
    {
      TableAtFrame(mem, mem', root, own, q, i, level, index);
    }
  }

  function SetEntry(mem: Memory, q: nat, i: nat, e: nat): Memory
    requires q in mem && i < 512
  {
    mem[q := mem[q][i := e]]
  }

  /** An entry that fits its slot can be stored without breaking the tree. */
  lemma SetEntryTree(mem: Memory, root: nat, own: Places, q: nat, i: nat, e: nat)
    requires Tree(mem, root, own) && q in own && i < 512
    requires 1 <= own[q].level
    requires EntryFits(e, own[q].level, 512 * own[q].index + i, own)
    ensures q in mem
    ensures Same(mem, SetEntry(mem, q, i, e), own, q, i)
    ensures Tree(SetEntry(mem, q, i, e), root, own)
  {
    assert TableFits(mem, own, q);
    var mem' := SetEntry(mem, q, i, e);
    forall p | p in own
      ensures TableFits(mem', own, p)
    {
      assert TableFits(mem, own, p);
      forall j | 0 <= j < 512
        ensures EntryFits(mem'[p][j], own[p].level, 512 * own[p].index + j, own)
      {
        assert EntryFits(mem[p][j], own[p].level, 512 * own[p].index + j, own);
      }
    }
  }

  lemma RootPlace(mem: Memory, root: nat, own: Places)
    requires Tree(mem, root, own)
    ensures root in own && own[root] == Place(4, 0)
  {
  }

  lemma LeafHere(mem: Memory, q: nat, level: nat, i: nat, va: nat)
    requires level >= 1 && q in mem && i < 512 && Slot(va, level) % 512 == i && Decode(level, mem[q][i]).Leaf?
    ensures LeafFrom(mem, q, level, va) == Some(Hit(level, mem[q][i]))
  {
    hide Decode, Slot;
  }

  /** Storing a leaf maps the addresses of its slot, and only those. */
  lemma WriteLeafWalk(mem: Memory, mem': Memory, root: nat, own: Places, q: nat, i: nat, va: nat)
    requires Tree(mem, root, own) && Same(mem, mem', own, q, i) && q in own && i < 512 && va < VIRT_LIMIT
    requires 1 <= own[q].level <= 2 && q in mem' && Decode(own[q].level, mem'[q][i]).Leaf?
    requires TableAt(mem', root, own[q].level, own[q].index) == Some(q)
    ensures LeafOf(mem', root, va) ==
      if Slot(va, own[q].level) == 512 * own[q].index + i then Some(Hit(own[q].level, mem'[q][i]))
      else LeafOf(mem, root, va)
  {
    hide Tree, Same, Decode, TableAt, LeafFrom;
    var L := own[q].level;
    if Slot(va, L) == 512 * own[q].index + i {
      assert Slot(va, L + 1) == own[q].index;
      WalkVia(mem', root, L, va);
      LeafHere(mem', q, L, i, va);
    } else {
      SlotShifts(va);
      RootPlace(mem, root, own);
      WalkFrame(mem, mem', root, own, q, i, root, 4, va);
    }
  }

  ghost predicate SameWalks(mem: Memory, mem': Memory, root: nat) {
    forall va: nat | va < VIRT_LIMIT :: LeafOf(mem', root, va) == LeafOf(mem, root, va)
  }

  /** A leaf can be stored in any table of level 1 or 2. */
  lemma WriteLeaf(mem: Memory, root: nat, own: Places, q: nat, i: nat, e: nat)
    requires Tree(mem, root, own) && q in own && i < 512 && q in mem
    requires 1 <= own[q].level <= 2 && Decode(own[q].level, e).Leaf?
    ensures Tree(SetEntry(mem, q, i, e), root, own)
    ensures Same(mem, SetEntry(mem, q, i, e), own, q, i)
    ensures UpperTablesKept(mem, SetEntry(mem, q, i, e), root, own[q].level)
  {
    SetEntryTree(mem, root, own, q, i, e);
    UpperFrame(mem, SetEntry(mem, q, i, e), root, own, q, i);
  }

  /** Rewriting the entry of an existing table changes no translation. */
  lemma RelinkTable(mem: Memory, root: nat, own: Places, q: nat, i: nat, e: nat)
    requires Tree(mem, root, own) && q in own && i < 512 && q in mem
    requires var L := own[q].level; 2 <= L <= 4 && Decode(L, mem[q][i]).Table? && Decode(L, e) == Decode(L, mem[q][i])
    requires TablePointer(e) == TablePointer(mem[q][i])
    ensures Tree(SetEntry(mem, q, i, e), root, own)
    ensures UpperTablesKept(mem, SetEntry(mem, q, i, e), root, own[q].level)
    ensures SameWalks(mem, SetEntry(mem, q, i, e), root)
  {
    assert TableFits(mem, own, q);
    assert EntryFits(mem[q][i], own[q].level, 512 * own[q].index + i, own);
    SetEntryTree(mem, root, own, q, i, e);
    var mem' := SetEntry(mem, q, i, e);
    UpperFrame(mem, mem', root, own, q, i);
    forall va: nat | va < VIRT_LIMIT
      ensures LeafOf(mem', root, va) == LeafOf(mem, root, va)
    {
      SlotShifts(va);
      WalkFrame(mem, mem', root, own, q, i, root, 4, va);
    }
  }

  /** A zeroed page that is not a table yet can be given any place. */
  lemma AdoptPage(mem: Memory, root: nat, own: Places, n: nat, place: Place)
    requires Tree(mem, root, own) && n !in own
    requires n % PAGE_SIZE == 0 && 0 < n < 0x1_0000_0000 && 1 <= place.level <= 4
    ensures Tree(mem[n := ZeroPage()], root, own[n := place])
    ensures Same(mem, mem[n := ZeroPage()], own, n, 0)
  {
    var mem', own' := mem[n := ZeroPage()], own[n := place];
    forall p | p in own'
      ensures TableFits(mem', own', p)
    {
      if p != n {
        assert TableFits(mem, own, p);
        forall j | 0 <= j < 512
          ensures EntryFits(mem'[p][j], own'[p].level, 512 * own'[p].index + j, own')
        {
          assert EntryFits(mem[p][j], own[p].level, 512 * own[p].index + j, own);
        }
      }
    }
  }

  /** Hanging a zeroed page under an empty entry changes no translation. */
  lemma LinkTable(mem: Memory, root: nat, own: Places, q: nat, i: nat, n: nat, e: nat)
    requires Tree(mem, root, own) && q in own && i < 512 && q in mem
    requires var L := own[q].level; 2 <= L <= 4 && mem[q][i] == 0 && Decode(L, e) == Table(n) && TablePointer(e) == n
    requires n !in own && n % PAGE_SIZE == 0 && 0 < n < 0x1_0000_0000
    ensures var own' := own[n := Place(own[q].level - 1, 512 * own[q].index + i)];
      Tree(SetEntry(mem[n := ZeroPage()], q, i, e), root, own')
    ensures UpperTablesKept(mem, SetEntry(mem[n := ZeroPage()], q, i, e), root, own[q].level)
    ensures SameWalks(mem, SetEntry(mem[n := ZeroPage()], q, i, e), root)
  {
    var place := Place(own[q].level - 1, 512 * own[q].index + i);
    var own' := own[n := place];
    AdoptPage(mem, root, own, n, place);
    var mem1 := mem[n := ZeroPage()];
    SetEntryTree(mem1, root, own', q, i, e);
    var mem' := SetEntry(mem1, q, i, e);
    assert Same(mem, mem', own, q, i);
    UpperFrame(mem, mem', root, own, q, i);
    forall va: nat | va < VIRT_LIMIT
      ensures LeafOf(mem', root, va) == LeafOf(mem, root, va)
    {
      SlotShifts(va);
      LinkWalk(mem, mem', root, own, q, i, n, root, 4, va);
    }
  }

  lemma {:induction false} LinkWalk(mem: Memory, mem': Memory, root: nat, own: Places, q: nat, i: nat, n: nat,
                                    p: nat, level: nat, va: nat)
    requires Tree(mem, root, own) && Same(mem, mem', own, q, i)
    requires q in own && i < 512 && q in mem && mem[q][i] == 0 && own[q].level >= 2
    requires n in mem' && mem'[n] == ZeroPage() && q in mem' && Decode(own[q].level, mem'[q][i]) == Table(n)
    requires p in own && own[p] == Place(level, Slot(va, level + 1))
    ensures LeafFrom(mem', p, level, va) == LeafFrom(mem, p, level, va)
    decreases level
  {
    assert TableFits(mem, own, p);
    var d := Slot(va, level) % 512;
    assert Slot(va, level) == 512 * own[p].index + d;
    assert EntryFits(mem[p][d], level, Slot(va, level), own);
    if p == q && d == i {
      assert LeafFrom(mem', n, level - 1, va) == None;
    } else {
      match Decode(level, mem[p][d])
      case Table(next) =>
        if level > 1 {
          LinkWalk(mem, mem', root, own, q, i, n, next, level - 1, va);
        }
      case _ =>
    }
  }

  // What the entries above the leaves hold

  /** Every entry that leads to a table is its address plus the given flags. */
  ghost predicate TablesHave(mem: Memory, own: Places, flags: nat) {
    forall q, i | q in own && q in mem && 2 <= own[q].level <= 4 && 0 <= i < 512 ::
      HasFlags(own[q].level, mem[q][i], flags)
  }

  predicate HasFlags(level: nat, e: nat, flags: nat) {
    Decode(level, e).Table? ==> e == Decode(level, e).address + flags
  }

  lemma SetEntryHas(mem: Memory, own: Places, q: nat, i: nat, e: nat, flags: nat)
    requires TablesHave(mem, own, flags) && q in own && q in mem && i < 512 && HasFlags(own[q].level, e, flags)
    ensures TablesHave(SetEntry(mem, q, i, e), own, flags)
  {
    hide HasFlags;
  }

  lemma AdoptHas(mem: Memory, own: Places, n: nat, place: Place, flags: nat)
    requires TablesHave(mem, own, flags) && n !in own
    ensures TablesHave(mem[n := ZeroPage()], own[n := place], flags)
  {
  }

  /** A write to a mapped address goes through if the flags of all tables and of its leaf say so. */
  lemma {:induction false} WritesGoThrough(mem: Memory, own: Places, p: nat, level: nat, va: nat, flags: nat)
    requires TablesHave(mem, own, flags) && Writable(flags) && p in own && own[p].level == level <= 4
    requires forall q | q in own :: TableFits(mem, own, q)
    requires own[p].index == Slot(va, level + 1)
    requires LeafFrom(mem, p, level, va).Some? && Writable(LeafFrom(mem, p, level, va).value.entry)
    ensures WritableFrom(mem, p, level, va)
    decreases level
  {
    hide Decode, Slot, TablesHave, EntryFits, HasFlags, Writable;
    var d := Slot(va, level) % 512;
    EntryOnWay(mem, own, p, level, va, flags);
    match Decode(level, mem[p][d])
    case Table(next) =>
      WritesGoThrough(mem, own, next, level - 1, va, flags);
    case _ =>
  }

  /** An entry that leads on leads to a table in its place, and may be written through. */
  lemma EntryOnWay(mem: Memory, own: Places, p: nat, level: nat, va: nat, flags: nat)
    requires TablesHave(mem, own, flags) && Writable(flags) && p in own && own[p].level == level <= 4
    requires forall q | q in own :: TableFits(mem, own, q)
    requires own[p].index == Slot(va, level + 1)
    ensures level > 0 && p in mem
    ensures var d := Slot(va, level) % 512;
      Decode(level, mem[p][d]).Table? ==>
        var next := Decode(level, mem[p][d]).address;
        Writable(mem[p][d]) && level > 1 && next in own && own[next] == Place(level - 1, Slot(va, level))
  {
    hide Writable;
    assert TableFits(mem, own, p);
    var d := Slot(va, level) % 512;
    var e := mem[p][d];
    assert Slot(va, level) == 512 * own[p].index + d;
    assert EntryFits(e, level, Slot(va, level), own);
    hide Decode, Slot, EntryFits;
    if Decode(level, e).Table? && level > 1 {
      assert HasFlags(level, e, flags);
      assert TableFits(mem, own, Decode(level, e).address);
      SumIsWritable(Decode(level, e).address, flags);
    }
  }

  lemma SumIsWritable(a: nat, flags: nat)
    requires Writable(flags)
    ensures a % 0x1000 == 0 ==> Writable(a + flags)
  {
  }

  lemma MayWriteAll(mem: Memory, root: nat, own: Places, va: nat, flags: nat)
    requires Tree(mem, root, own) && TablesHave(mem, own, flags) && Writable(flags) && va < VIRT_LIMIT
    requires LeafOf(mem, root, va).Some? && Writable(LeafOf(mem, root, va).value.entry)
    ensures MayWrite(mem, root, va)
  {
    hide LeafFrom, TablesHave, TableFits;
    SlotShifts(va);
    WritesGoThrough(mem, own, root, 4, va, flags);
  }
}
