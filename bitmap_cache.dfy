/** The slot store and façade of the Tiger bitmap cache: a growable array of
    (bitmap, palette, surface) slots, searched linearly by the identity of the two
    descriptors, that renders a surface through the factory on a miss and keeps it. */
module BitmapCache {
  import opened Wrappers
  import opened Surfaces

  /** tiger_bitmap: one slot. The slot is empty when its surface `cs` is null. */
  datatype Slot = Slot(kb: Bitmap?, kp: Palette?, cs: Surface?)

  /** The slot tiger_bitmap_cache_expand writes into every new position. */
  const EmptySlot := Slot(null, null, null)

  /** Return codes: 0 and the three TIGER_E_* errors the cache produces. */
  datatype Status = Ok | InvalidParameter | OutOfMemory | CairoError

  /** The out-parameter `cairo_surface_t **cs` of tiger_bitmap_cache_get. */
  class SurfaceRef {
    var cs: Surface?

    constructor ()
      ensures cs == null
    {
      cs := null;
    }
  }

  /** The lookup test: both descriptors equal by identity. */
  predicate Matches(s: Slot, kb: Bitmap?, kp: Palette?)
  {
    s.kb == kb && s.kp == kp
  }

  /** All or nothing: an empty slot has null keys, an occupied one a bitmap key and a
      well-formed surface. */
  predicate WellFormed(s: Slot)
  {
    if s.cs == null then s.kb == null && s.kp == null else s.kb != null && s.cs.Valid()
  }

  /** No two occupied slots hold the same (bitmap, palette) pair. */
  predicate NoDuplicateKeys(slots: seq<Slot>)
  {
    forall i, j :: 0 <= i < j < |slots| && slots[i].cs != null && slots[j].cs != null ==>
      !Matches(slots[j], slots[i].kb, slots[i].kp)
  }

  /** Every surface is owned by one slot only. */
  predicate DistinctSurfaces(slots: seq<Slot>)
  {
    forall i, j :: 0 <= i < j < |slots| && slots[i].cs != null ==> slots[i].cs != slots[j].cs
  }

  /** The invariant of the slot store. */
  predicate StoreInvariant(slots: seq<Slot>)
  {
    (forall i :: 0 <= i < |slots| ==> WellFormed(slots[i])) &&
    NoDuplicateKeys(slots) && DistinctSurfaces(slots)
  }

  /** The lookup: the first slot whose keys are (kb, kp), if any. */
  function FindSlot(slots: seq<Slot>, kb: Bitmap?, kp: Palette?): (r: Option<nat>)
    ensures r.Some? ==> r.value < |slots| && Matches(slots[r.value], kb, kp)
    ensures r.Some? ==> forall j :: 0 <= j < r.value ==> !Matches(slots[j], kb, kp)
    ensures r.None? ==> forall j :: 0 <= j < |slots| ==> !Matches(slots[j], kb, kp)
  {
    if slots == [] then None
    else if Matches(slots[0], kb, kp) then Some(0)
    else match FindSlot(slots[1..], kb, kp)
      case None => None
      case Some(i) => Some(i + 1)
  }

  /** The free slot a missing lookup settles on: the last empty slot, if any. */
  function LastEmpty(slots: seq<Slot>): (r: Option<nat>)
    ensures r.Some? ==> r.value < |slots| && slots[r.value].cs == null
    ensures r.Some? ==> forall j :: r.value < j < |slots| ==> slots[j].cs != null
    ensures r.None? ==> forall j :: 0 <= j < |slots| ==> slots[j].cs != null
  {
    if slots == [] then None
    else if slots[|slots| - 1].cs == null then Some(|slots| - 1)
    else
      var front := slots[..|slots| - 1];
      assert forall j :: 0 <= j < |front| ==> front[j] == slots[j];
      LastEmpty(front)
  }

  /** The growth policy: 8 slots for an empty store, twice as many otherwise. */
  function NewCapacity(size: nat): (n: nat)
    ensures n > size
    ensures size == 0 ==> n == 8
    ensures size != 0 ==> n == 2 * size
  {
    if size != 0 then size * 2 else 8
  }

  /** The capacities a store can have: 0, then 8, 16, 32, ... */
  predicate IsCapacity(n: nat)
  {
    n == 0 || n == 8 || (n > 8 && n % 2 == 0 && IsCapacity(n / 2))
  }

  /** Growing keeps the capacity on the sequence 0, 8, 16, 32, ... */
  lemma NewCapacityIsCapacity(size: nat)
    requires IsCapacity(size)
    ensures IsCapacity(NewCapacity(size))
  {
    if size != 0 {
      assert NewCapacity(size) / 2 == size;
    }
  }

  /** The slots after a successful expansion to `n`: the old ones, then empty ones. */
  function Grown(slots: seq<Slot>, n: nat): (r: seq<Slot>)
    requires |slots| <= n
    ensures |r| == n && r[..|slots|] == slots
    ensures forall k :: |slots| <= k < n ==> r[k] == EmptySlot
  {
    slots + seq(n - |slots|, _ => EmptySlot)
  }

  /** Growing keeps the store invariant. */
  lemma GrownInvariant(slots: seq<Slot>, n: nat)
    requires |slots| <= n && StoreInvariant(slots)
    ensures StoreInvariant(Grown(slots, n))
  {
    var g := Grown(slots, n);
    forall i | 0 <= i < n
      ensures WellFormed(g[i])
    {
      if i < |slots| {
        assert g[i] == slots[i];
      }
    }
    forall i, j | 0 <= i < j < n && g[i].cs != null
      ensures g[i].cs != g[j].cs && (g[j].cs != null ==> !Matches(g[j], g[i].kb, g[i].kp))
    {
      assert i < |slots| && g[i] == slots[i];
      if j < |slots| {
        assert g[j] == slots[j];
      }
    }
  }

  /** Growth property: after an expansion every entry is found where it was before,
      and a pair that was absent is still absent. */
  lemma GrownFind(slots: seq<Slot>, n: nat, kb: Bitmap, kp: Palette?)
    requires |slots| <= n
    ensures FindSlot(Grown(slots, n), kb, kp) == FindSlot(slots, kb, kp)
  {
    var g := Grown(slots, n);
    assert forall k :: 0 <= k < |slots| ==> g[k] == slots[k];
    assert forall k :: |slots| <= k < n ==> !Matches(g[k], kb, kp);
  }

  /** Occupying the chosen empty slot with a pair that was absent and a surface no slot
      owns keeps the store invariant, and the pair is then found in that slot. */
  lemma OccupyInvariant(slots: seq<Slot>, i: nat, kb: Bitmap, kp: Palette?, cs: Surface)
    requires StoreInvariant(slots) && i < |slots| && slots[i].cs == null
    requires FindSlot(slots, kb, kp).None?
    requires cs.Valid() && forall j :: 0 <= j < |slots| ==> slots[j].cs != cs
    ensures StoreInvariant(slots[i := Slot(kb, kp, cs)])
    ensures FindSlot(slots[i := Slot(kb, kp, cs)], kb, kp) == Some(i)
  {
    var s := slots[i := Slot(kb, kp, cs)];
    forall a, b | 0 <= a < b < |s| && s[a].cs != null
      ensures s[a].cs != s[b].cs && (s[b].cs != null ==> !Matches(s[b], s[a].kb, s[a].kp))
    {
      if a != i && b != i {
        assert s[a] == slots[a] && s[b] == slots[b];
      }
    }
    var f := FindSlot(s, kb, kp);
    assert Matches(s[i], kb, kp);
    assert forall j :: 0 <= j < |s| && j != i ==> s[j] == slots[j];
    assert f.Some? && f.value == i;
  }

  /** Distinctness property: two different (bitmap, palette) pairs never come out of
      the store with the same surface. */
  lemma HitsDistinct(slots: seq<Slot>, kb1: Bitmap, kp1: Palette?, kb2: Bitmap, kp2: Palette?)
    requires StoreInvariant(slots)
    requires FindSlot(slots, kb1, kp1).Some? && FindSlot(slots, kb2, kp2).Some?
    requires kb1 != kb2 || kp1 != kp2
    ensures slots[FindSlot(slots, kb1, kp1).value].cs != slots[FindSlot(slots, kb2, kp2).value].cs
  {
    var i, j := FindSlot(slots, kb1, kp1).value, FindSlot(slots, kb2, kp2).value;
    assert i != j;
    assert slots[i].cs != null;
  }

  /** The surfaces of the occupied slots, in slot order: what clear destroys. */
  function SurfacesOf(slots: seq<Slot>): (r: seq<Surface>)
    ensures forall i :: 0 <= i < |slots| && slots[i].cs != null ==> slots[i].cs in r
    ensures forall k :: 0 <= k < |r| ==> exists i :: 0 <= i < |slots| && slots[i].cs == r[k]
  {
    if slots == [] then []
    else
      var front := slots[..|slots| - 1];
      var last := slots[|slots| - 1];
      assert forall i :: 0 <= i < |front| ==> front[i] == slots[i];
      SurfacesOf(front) + (if last.cs != null then [last.cs] else [])
  }

  /** When no surface is owned twice, clear destroys each surface exactly once. */
  lemma {:induction false} SurfacesOfDistinct(slots: seq<Slot>)
    requires DistinctSurfaces(slots)
    ensures forall a, b :: 0 <= a < b < |SurfacesOf(slots)| ==> SurfacesOf(slots)[a] != SurfacesOf(slots)[b]
  {
    if slots != [] {
      var front := slots[..|slots| - 1];
      var last := slots[|slots| - 1];
      assert forall i :: 0 <= i < |front| ==> front[i] == slots[i];
      SurfacesOfDistinct(front);
      if last.cs != null {
        assert last.cs !in SurfacesOf(front);
      }
    }
  }

  /** Where a miss puts its new entry: the last empty slot, or else the first slot the
      expansion adds. */
  function MissIndex(slots: seq<Slot>): nat
  {
    match LastEmpty(slots)
    case Some(i) => i
    case None => |slots|
  }

  /** The slots a miss starts from: expanded when no slot was empty and the expansion
      succeeded. */
  function MissSlots(slots: seq<Slot>, reallocOk: bool): (r: seq<Slot>)
    ensures LastEmpty(slots).Some? || reallocOk ==> MissIndex(slots) < |r|
  {
    if LastEmpty(slots).None? && reallocOk then Grown(slots, NewCapacity(|slots|)) else slots
  }

  /** Identity-hit property: after a miss has stored a new surface for (kb, kp), the
      store invariant still holds and the next lookup of (kb, kp) hits that slot and
      its surface, so the factory is not called again for the pair. */
  lemma HitAfterMiss(slots: seq<Slot>, reallocOk: bool, kb: Bitmap, kp: Palette?, cs: Surface)
    requires StoreInvariant(slots) && FindSlot(slots, kb, kp).None?
    requires LastEmpty(slots).Some? || reallocOk
    requires cs.Valid() && forall j :: 0 <= j < |slots| ==> slots[j].cs != cs
    ensures var after := MissSlots(slots, reallocOk)[MissIndex(slots) := Slot(kb, kp, cs)];
            StoreInvariant(after) && FindSlot(after, kb, kp) == Some(MissIndex(slots)) &&
            after[MissIndex(slots)].cs == cs
  {
    var base := MissSlots(slots, reallocOk);
    if LastEmpty(slots).None? {
      GrownInvariant(slots, |base|);
      GrownFind(slots, |base|, kb, kp);
    }
    OccupyInvariant(base, MissIndex(slots), kb, kp, cs);
  }

  /** The status create_bitmap returns for a factory outcome. */
  function StatusOf(r: Outcome): Status
  {
    match r
    case Rendered(_) => Ok
    case InvalidInput => InvalidParameter
    case CreationFailed => CairoError
  }

  /** tiger_bitmap_cache_create_bitmap: render a surface for (kb, kp) into the empty
      slot `n` of `tb`. The surface field is written first; the keys only on success. */
  method CreateBitmap(tb: array?<Slot>, n: nat, kb: Bitmap?, kp: Palette?, swapRgb: bool, env: Env)
    returns (ret: Status)
    requires tb != null ==> n < tb.Length && tb[n] == EmptySlot
    requires kb != null ==> InputOk(kb, kp)
    modifies tb
    ensures tb == null || kb == null ==> ret == InvalidParameter
    ensures tb != null && kb != null ==> ret == StatusOf(Render(kb, kp, swapRgb, env))
    ensures tb != null && ret != Ok ==> tb[..] == old(tb[..])
    ensures tb != null && ret == Ok ==>
              kb != null && Render(kb, kp, swapRgb, env).Rendered? &&
              tb[n].cs != null && fresh(tb[n].cs) && tb[n].cs.Valid() &&
              tb[n].cs.Shows(Render(kb, kp, swapRgb, env).image) &&
              tb[..] == old(tb[..])[n := Slot(kb, kp, tb[n].cs)]
  {
    if tb == null || kb == null {
      return InvalidParameter;
    }
    var cs: Surface?;
    if kb.bpp == 0 {
      cs := CreatePng(kb, swapRgb, env.png);
    } else {
      if kp == null {
        return InvalidParameter;
      }
      cs := CreatePaletted(kb, kp, swapRgb, env.surfaceOk);
    }
    tb[n] := tb[n].(cs := cs);
    if cs == null {
      return CairoError;
    }
    tb[n] := tb[n].(kb := kb);
    tb[n] := tb[n].(kp := kp);
    ret := Ok;
  }

  /** tiger_bitmap_cache: the slot array `tb` of `size` slots and the swap_rgb flag
      given at init. `live` records that `tb` has not been freed by clear. */
  class Cache {
    var tb: array?<Slot>
    var size: nat
    var swapRgb: bool
    ghost var live: bool

    ghost predicate Valid()
      reads this, tb
    {
      live && IsCapacity(size) && (tb == null <==> size == 0) &&
      (tb != null ==> tb.Length == size && StoreInvariant(tb[..]))
    }

    /** The slots, as a sequence. */
    ghost function Slots(): seq<Slot>
      reads this, tb
    {
      if tb == null then [] else tb[..]
    }

    /** Storage for a cache that tiger_bitmap_cache_init has not set up yet. */
    constructor ()
      ensures !live
    {
      tb, size, swapRgb := null, 0, false;
      live := false;
    }

    /** tiger_bitmap_cache_init: no slot array, size 0, and the swap flag recorded. */
    method Init(swapRgb: bool)
      modifies this
      ensures Valid() && tb == null && size == 0 && this.swapRgb == swapRgb && Slots() == []
    {
      tb := null;
      size := 0;
      this.swapRgb := swapRgb;
      live := true;
    }

    /** tiger_bitmap_cache_clear: destroy the surface of every occupied slot, in slot
        order, and free the slot array. `tb` and `size` are left as they were, so the
        cache is unusable until the next init, unless it never had a slot array. */
    method Clear() returns (ghost destroyed: seq<Surface>)
      requires Valid()
      modifies this`live
      ensures tb == old(tb) && size == old(size) && swapRgb == old(swapRgb)
      ensures destroyed == SurfacesOf(old(Slots()))
      ensures forall a, b :: 0 <= a < b < |destroyed| ==> destroyed[a] != destroyed[b]
      ensures live <==> tb == null
      ensures tb == null ==> Valid()
    {
      destroyed := [];
      if tb != null {
        var n := 0;
        while n < size
          invariant n <= size
          invariant destroyed == SurfacesOf(tb[..n])
        {
          assert tb[..n + 1][..n] == tb[..n];
          if tb[n].cs != null {
            destroyed := destroyed + [tb[n].cs];
          }
          n := n + 1;
        }
        assert tb[..n] == tb[..];
        SurfacesOfDistinct(tb[..]);
        live := false;
      }
    }

    /** tiger_bitmap_cache_expand: grow to 8 slots, or to twice the size, keeping the old
        slots and emptying the new ones. When the reallocation fails nothing changes. */
    method Expand(env: Env) returns (ret: Status)
      requires Valid()
      modifies this
      ensures Valid() && swapRgb == old(swapRgb)
      ensures ret == Ok || ret == OutOfMemory
      ensures ret == Ok <==> env.reallocOk
      ensures ret == Ok ==> size == NewCapacity(old(size)) && fresh(tb) && Slots() == Grown(old(Slots()), size)
      ensures ret == OutOfMemory ==> tb == old(tb) && size == old(size)
    {
      var newSize := if size != 0 then size * 2 else 8;
      if !env.reallocOk {
        return OutOfMemory;
      }
      var grown := new Slot[newSize];
      if tb != null {
        forall k | 0 <= k < size {
          grown[k] := tb[k];
        }
      }
      var n := size;
      while n < newSize
        modifies grown
        invariant size <= n <= newSize
        invariant grown[..size] == Slots()
        invariant forall k :: size <= k < n ==> grown[k] == EmptySlot
      {
        grown[n] := grown[n].(kb := null, kp := null, cs := null);
        n := n + 1;
      }
      ghost var before := Slots();
      assert grown[..] == Grown(before, newSize);
      GrownInvariant(before, newSize);
      NewCapacityIsCapacity(size);
      size := newSize;
      tb := grown;
      ret := Ok;
    }

    /** The lookup loop of tiger_bitmap_cache_get: stop at the first slot holding
        (kb, kp); on the way remember the last empty slot passed. */
    method Scan(kb: Bitmap?, kp: Palette?) returns (found: Option<nat>, available: Option<nat>)
      requires Valid()
      ensures found == FindSlot(Slots(), kb, kp)
      ensures found.None? ==> available == LastEmpty(Slots())
    {
      ghost var slots := Slots();
      found, available := None, None;
      var n := 0;
      while n < size
        invariant n <= size == |slots|
        invariant forall j :: 0 <= j < n ==> !Matches(slots[j], kb, kp)
        invariant available == LastEmpty(slots[..n])
      {
        assert tb[n] == slots[n];
        if tb[n].kb == kb && tb[n].kp == kp {
          return Some(n), available;
        }
        assert slots[..n + 1][..n] == slots[..n];
        if tb[n].cs == null {
          available := Some(n);
        }
        n := n + 1;
      }
      assert slots[..n] == slots;
    }

    /** The free-slot step of a miss: the empty slot the scan found, or else the first
        slot a successful expansion adds. */
    method EnsureFreeSlot(available: Option<nat>, env: Env) returns (ret: Status, slot: nat)
      requires Valid() && available == LastEmpty(Slots())
      modifies this
      ensures Valid() && swapRgb == old(swapRgb)
      ensures ret == Ok || ret == OutOfMemory
      ensures ret == OutOfMemory <==> available.None? && !env.reallocOk
      ensures ret == OutOfMemory ==> Slots() == old(Slots())
      ensures ret == Ok ==> slot == MissIndex(old(Slots())) && Slots() == MissSlots(old(Slots()), env.reallocOk)
      ensures ret == Ok ==> slot < |Slots()| && Slots()[slot] == EmptySlot
      ensures ret == Ok && available.Some? ==> tb == old(tb)
      ensures ret == Ok && available.None? ==> fresh(tb)
    {
      slot := size;
      if available.None? {
        ret := Expand(env);
      } else {
        ret, slot := Ok, available.value;
      }
    }

    /** The miss path of tiger_bitmap_cache_get: take the empty slot the scan found, or
        else expand and take the first new slot, then create the surface there. The
        expansion is kept even when the creation fails. */
    method Miss(kb: Bitmap, kp: Palette?, out: SurfaceRef, available: Option<nat>, env: Env)
      returns (ret: Status)
      requires Valid() && InputOk(kb, kp)
      requires FindSlot(Slots(), kb, kp).None? && available == LastEmpty(Slots())
      modifies this, tb, out
      ensures Valid() && swapRgb == old(swapRgb)
      ensures ret != Ok ==> out.cs == old(out.cs)
      ensures if available.None? && !env.reallocOk then
                ret == OutOfMemory && Slots() == old(Slots())
              else
                var r := Render(kb, kp, old(swapRgb), env);
                var base := MissSlots(old(Slots()), env.reallocOk);
                ret == StatusOf(r) &&
                (ret != Ok ==> Slots() == base) &&
                (ret == Ok ==> out.cs != null && fresh(out.cs) && out.cs.Shows(r.image) &&
                               Slots() == base[MissIndex(old(Slots())) := Slot(kb, kp, out.cs)])
    {
      ghost var before := Slots();
      var slot: nat;
      ret, slot := EnsureFreeSlot(available, env);
      if ret != Ok {
        return;
      }
      ret := CreateBitmap(tb, slot, kb, kp, swapRgb, env);
      if ret != Ok {
        return;
      }
      out.cs := tb[slot].cs;
      HitAfterMiss(before, env.reallocOk, kb, kp, out.cs);
    }

    /** tiger_bitmap_cache_get: return the surface cached for (kb, kp), creating it in a
        free slot on a miss. */
    method Get(kb: Bitmap?, kp: Palette?, out: SurfaceRef?, env: Env) returns (ret: Status)
      requires Valid()
      requires kb != null ==> InputOk(kb, kp)
      modifies this, tb, out
      ensures Valid() && swapRgb == old(swapRgb)
      ensures out != null && ret != Ok ==> out.cs == old(out.cs)
      ensures kb == null || out == null ==> ret == InvalidParameter && Slots() == old(Slots())
      ensures kb != null && out != null && FindSlot(old(Slots()), kb, kp).Some? ==>
                ret == Ok && Slots() == old(Slots()) &&
                out.cs == old(Slots())[FindSlot(old(Slots()), kb, kp).value].cs
      ensures kb != null && out != null && FindSlot(old(Slots()), kb, kp).None? ==>
                if LastEmpty(old(Slots())).None? && !env.reallocOk then
                  ret == OutOfMemory && Slots() == old(Slots())
                else
                  var r := Render(kb, kp, old(swapRgb), env);
                  var base := MissSlots(old(Slots()), env.reallocOk);
                  ret == StatusOf(r) &&
                  (ret != Ok ==> Slots() == base) &&
                  (ret == Ok ==> out.cs != null && fresh(out.cs) && out.cs.Shows(r.image) &&
                                 Slots() == base[MissIndex(old(Slots())) := Slot(kb, kp, out.cs)])
    {
      if kb == null || out == null {
        return InvalidParameter;
      }
      var found, available := Scan(kb, kp);
      if found.Some? {
        out.cs := tb[found.value].cs;
        return Ok;
      }
      ret := Miss(kb, kp, out, available, env);
    }
  }
}
