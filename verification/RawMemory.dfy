/**
 The byte-moving routines of the boot loader (Boot/Legacy/Shared/Memory/Memory.c) and of the kernel
 (Common/Kernel/Memory/Memory.c), over an array that stands for memory.
 */
module RawMemory {
  type Byte = bv8

  /** A memory in which the n cells at dst have been replaced by those of another piece. */
  function Overlay<T>(s: seq<T>, dst: nat, piece: seq<T>): (r: seq<T>)
    requires dst + |piece| <= |s|
    ensures |r| == |s|
    ensures forall i | 0 <= i < |s| :: r[i] == if dst <= i < dst + |piece| then piece[i - dst] else s[i]
  {
    s[..dst] + piece + s[dst + |piece|..]
  }

  /** Copying forwards, cell by cell: what is written may be read again. */
  function Forward<T>(s: seq<T>, dst: nat, src: nat, n: nat): (r: seq<T>)
    requires dst + n <= |s| && src + n <= |s|
    ensures |r| == |s| && forall i | 0 <= i < |s| && !(dst <= i < dst + n) :: r[i] == s[i]
    decreases n
  {
    if n == 0 then s
    else
      var t := Forward(s, dst, src, n - 1);
      t[dst + (n - 1) := t[src + (n - 1)]]
  }

  /** An overlap does no harm as long as the destination comes first. */
  lemma {:induction false} ForwardIsOverlay<T>(s: seq<T>, dst: nat, src: nat, n: nat)
    requires dst + n <= |s| && src + n <= |s| && (dst <= src || src + n <= dst)
    ensures Forward(s, dst, src, n) == Overlay(s, dst, s[src..src + n])
    decreases n
  {
    hide Overlay;
    if n > 0 {
      ForwardIsOverlay(s, dst, src, n - 1);
      OverlayOneMore(s, dst, src, n - 1);
    } else {
      OverlayNone(s, dst, s[src..src]);
    }
  }

  lemma OverlayNone<T>(s: seq<T>, dst: nat, piece: seq<T>)
    requires dst <= |s| && piece == []
    ensures Overlay(s, dst, piece) == s
  {
  }

  lemma OverlayOneMore<T>(s: seq<T>, dst: nat, src: nat, n: nat)
    requires dst + n < |s| && src + n < |s| && (dst <= src || src + n < dst)
    ensures var t := Overlay(s, dst, s[src..src + n]);
      t[dst + n := t[src + n]] == Overlay(s, dst, s[src..src + n + 1])
  {
    var t, r := Overlay(s, dst, s[src..src + n]), Overlay(s, dst, s[src..src + n + 1]);
    hide Overlay;
    forall k | 0 <= k < |s|
      ensures t[dst + n := t[src + n]][k] == r[k]
    {
    }
  }

  /** The place, among the first d, that comes round again k places on: k modulo d. */
  function Turn(k: nat, d: nat): (r: nat)
    requires d > 0
    ensures r <= k && r < d
  {
    if k < d then k else Turn(k - d, d)
  }

  /** Otherwise the cells between source and destination come out again and again. */
  lemma {:induction false} ForwardRepeats<T>(s: seq<T>, dst: nat, src: nat, n: nat, k: nat)
    requires dst + n <= |s| && src < dst && k < n
    ensures Forward(s, dst, src, n)[dst + k] == s[src + Turn(k, dst - src)]
    decreases n
  {
    if k < n - 1 {
      ForwardRepeats(s, dst, src, n - 1, k);
    } else if k >= dst - src {
      ForwardRepeats(s, dst, src, n - 1, k - (dst - src));
    }
  }

  method Memcpy<T>(a: array<T>, dst: nat, src: nat, n: nat)
    requires dst + n <= a.Length && src + n <= a.Length
    modifies a
    ensures a[..] == Forward(old(a[..]), dst, src, n)
    ensures dst <= src || src + n <= dst ==> a[..] == Overlay(old(a[..]), dst, old(a[src..src + n]))
  {
    hide Overlay;
    var i := 0;
    while i < n
      invariant i <= n && a[..] == Forward(old(a[..]), dst, src, i)
    {
      a[dst + i] := a[src + i];
      i := i + 1;
    }
    if dst <= src || src + n <= dst {
      ForwardIsOverlay(old(a[..]), dst, src, n);
      assert old(a[..])[src..src + n] == old(a[src..src + n]);
    }
  }

  /** Copies backwards; an overlap does no harm as long as the source comes first. */
  method CopyBackwards<T>(a: array<T>, dst: nat, src: nat, n: nat)
    requires dst + n <= a.Length && src <= dst
    modifies a
    ensures a[..] == Overlay(old(a[..]), dst, old(a[src..src + n]))
  {
    ghost var s, piece := a[..], a[src..src + n];
    var i := n;
    while i > 0
      invariant 0 <= i <= n
      invariant forall k | 0 <= k < dst + i :: a[k] == s[k]
      invariant forall k | dst + i <= k < dst + n :: a[k] == piece[k - dst]
      invariant forall k | dst + n <= k < a.Length :: a[k] == s[k]
    {
      a[dst + (i - 1)] := a[src + (i - 1)];
      i := i - 1;
    }
    assert a[..] == Overlay(s, dst, piece);
  }

  /** The boot loader's: copies between two areas that may overlap, from the end that is safe. */
  method Memmove<T>(a: array<T>, dst: nat, src: nat, n: nat)
    requires dst + n <= a.Length && src + n <= a.Length
    modifies a
    ensures a[..] == Overlay(old(a[..]), dst, old(a[src..src + n]))
  {
    if dst < src {
      Memcpy(a, dst, src, n);
    } else {
      CopyBackwards(a, dst, src, n);
    }
  }

  const FALLBACK := 64

  function KernelMoved<T>(s: seq<T>, dst: nat, src: nat, n: nat): seq<T>
    requires dst + n <= |s| && src + n <= |s|
  {
    if dst < src || dst - src >= FALLBACK then Forward(s, dst, src, n) else Overlay(s, dst, s[src..src + n])
  }

  /** The kernel's: the same, but for areas that are far enough apart it leaves the copying to Memcpy. */
  method KernelMemmove<T>(a: array<T>, dst: nat, src: nat, n: nat)
    requires dst + n <= a.Length && src + n <= a.Length
    modifies a
    ensures a[..] == KernelMoved(old(a[..]), dst, src, n)
    ensures dst <= src || dst - src < 64 || n <= dst - src ==>
      a[..] == Overlay(old(a[..]), dst, old(a[src..src + n]))
  {
    hide Forward, Overlay;
    assert old(a[..])[src..src + n] == old(a[src..src + n]);
    if dst < src {
      Memcpy(a, dst, src, n);
    } else if dst - src < FALLBACK {
      CopyBackwards(a, dst, src, n);
    } else {
      Memcpy(a, dst, src, n);
    }
  }

  /** Does the kernel's routine move these areas rightly, whatever they hold? */
  ghost predicate MovesRightly(size: nat, dst: nat, src: nat, n: nat)
    requires dst + n <= size && src + n <= size
  {
    forall s: seq<bv8> | |s| == size :: KernelMoved(s, dst, src, n) == Overlay(s, dst, s[src..src + n])
  }

  lemma MovedRightly<T>(s: seq<T>, dst: nat, src: nat, n: nat)
    requires dst + n <= |s| && src + n <= |s|
    requires dst <= src || dst - src < FALLBACK || n <= dst - src
    ensures KernelMoved(s, dst, src, n) == Overlay(s, dst, s[src..src + n])
  {
    hide Forward, Overlay;
    if dst <= src || src + n <= dst {
      ForwardIsOverlay(s, dst, src, n);
    }
  }

  lemma OverlayAt<T>(s: seq<T>, dst: nat, src: nat, n: nat, k: nat)
    requires dst + n <= |s| && src + n <= |s| && k < n
    ensures Overlay(s, dst, s[src..src + n])[dst + k] == s[src + k]
  {
  }

  /** In other areas the source's first cells come out again and again. */
  lemma MovedWrongly<T>(s: seq<T>, dst: nat, src: nat, n: nat, k: nat)
    requires dst + n <= |s| && src < dst && FALLBACK <= dst - src < n && k < n
    ensures KernelMoved(s, dst, src, n)[dst + k] == s[src + Turn(k, dst - src)]
  {
    hide Forward, Turn;
    ForwardRepeats(s, dst, src, n, k);
  }

  lemma TurnsBack(d: nat)
    requires d > 0
    ensures Turn(d, d) == 0
  {
  }

  /** It does if and only if the source comes last, the areas are less than 64 bytes apart, or they do not overlap. */
  lemma {:induction false} KernelMemmoveExactly(size: nat, dst: nat, src: nat, n: nat)
    requires dst + n <= size && src + n <= size
    ensures MovesRightly(size, dst, src, n) <==> dst <= src || dst - src < 64 || n <= dst - src
  {
    hide Overlay, KernelMoved;
    if dst <= src || dst - src < FALLBACK || n <= dst - src {
      forall s: seq<bv8> | |s| == size
        ensures KernelMoved(s, dst, src, n) == Overlay(s, dst, s[src..src + n])
      {
        MovedRightly(s, dst, src, n);
      }
    } else {
      var s: seq<bv8> := seq(size, i => if i == src then 1 else 0);
      MovedWrongly(s, dst, src, n, dst - src);
      TurnsBack(dst - src);
      OverlayAt(s, dst, src, n, dst - src);
    }
  }

  method Memset<T>(a: array<T>, dst: nat, value: T, n: nat)
    requires dst + n <= a.Length
    modifies a
    ensures a[..] == Overlay(old(a[..]), dst, seq(n, _ => value))
  {
    var i := 0;
    while i < n
      invariant i <= n
      invariant forall k | 0 <= k < a.Length :: a[k] == if dst <= k < dst + i then value else old(a[k])
    {
      a[dst + i] := value;
      i := i + 1;
    }
  }

  /** Moves an auxiliary buffer into an area. */
  method Paste<T>(a: array<T>, dst: nat, aux: seq<T>)
    requires dst + |aux| <= a.Length
    modifies a
    ensures a[..] == Overlay(old(a[..]), dst, aux)
  {
    var i := 0;
    while i < |aux|
      invariant 0 <= i <= |aux|
      invariant forall k | 0 <= k < a.Length :: a[k] == if dst <= k < dst + i then aux[k - dst] else old(a[k])
    {
      a[dst + i] := aux[i];
      i := i + 1;
    }
  }

  /** Exchanges two areas that are apart, by way of an auxiliary buffer. */
  method Memswap<T>(a: array<T>, x: nat, y: nat, n: nat)
    requires x + n <= a.Length && y + n <= a.Length && (x + n <= y || y + n <= x)
    modifies a
    ensures a[..] == Overlay(Overlay(old(a[..]), x, old(a[y..y + n])), y, old(a[x..x + n]))
  {
    hide Overlay;
    var aux := a[x..x + n];
    Memmove(a, x, y, n);
    Paste(a, y, aux);
  }
}
