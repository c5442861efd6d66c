/**
 * The chained bump allocator `ArenaAllocator<N>` of src/engine/allocator.h.
 *
 * A block owns `N` bytes and a bump offset `ptr`; a request that does not fit
 * in the rest of a block is passed on to the next block of the chain, which is
 * created on demand. An allocation is reported as a `Slot`: the position of
 * the block in the chain (0 is the block asked) and the byte offset inside it.
 */
module Allocator {
  import opened Wrappers

  /** Where an allocation landed: block 0 is the block asked, block 1 its `next`, and so on. */
  datatype Slot = Slot(block: nat, offset: nat)

  /** The byte range one allocation handed out. */
  datatype Grant = Grant(slot: Slot, size: nat)

  /** `size_t` arithmetic is modulo 2^64. */
  const SIZE_T_MODULUS: nat := 0x1_0000_0000_0000_0000

  /** An answer from block `next`, seen from the block before it. */
  function Deeper(r: Option<Slot>): (d: Option<Slot>)
    ensures d.Some? == r.Some?
    ensures d.Some? ==> d.value == Slot(r.value.block + 1, r.value.offset)
  {
    match r
    case None => None
    case Some(s) => Some(Slot(s.block + 1, s.offset))
  }

  /**
   * `Alloc(size)` on a chain whose blocks have bump offsets `chain` (the
   * block asked first): the answer and the offsets afterwards.
   */
  function AllocSpec(n: nat, chain: seq<nat>, size: nat): (r: (Option<Slot>, seq<nat>))
    requires chain != []
    ensures |r.1| == |chain| || (r.0.Some? && |r.1| == |chain| + 1)
    decreases |chain|
  {
    if size > n then (None, chain)
    else if size <= n - chain[0] then (Some(Slot(0, chain[0])), [chain[0] + size] + chain[1..])
    else if |chain| == 1 then (Some(Slot(1, 0)), chain + [size])
    else
      var (r, rest) := AllocSpec(n, chain[1..], size);
      (Deeper(r), [chain[0]] + rest)
  }

  /** Every block's offset is within its capacity. */
  predicate Bounded(n: nat, chain: seq<nat>)
  {
    forall i :: 0 <= i < |chain| ==> chain[i] <= n
  }

  /** A request that fits a block but finds room in no block of `chain`: it goes past the last one. */
  predicate Overflows(n: nat, chain: seq<nat>, size: nat)
  {
    size <= n && forall i :: 0 <= i < |chain| ==> n - chain[i] < size
  }

  /** The grant lies in the used part of its block. */
  predicate Inside(chain: seq<nat>, g: Grant)
  {
    g.slot.block < |chain| && g.slot.offset + g.size <= chain[g.slot.block]
  }

  /** Two grants share no byte. */
  predicate Apart(g: Grant, h: Grant)
  {
    g.slot.block != h.slot.block ||
    g.slot.offset + g.size <= h.slot.offset ||
    h.slot.offset + h.size <= g.slot.offset
  }

  /** Every grant handed out so far is in use, and no two of them overlap. */
  ghost predicate Sound(chain: seq<nat>, grants: seq<Grant>)
  {
    && (forall i :: 0 <= i < |grants| ==> Inside(chain, grants[i]))
    && (forall i, j :: 0 <= i < j < |grants| ==> Apart(grants[i], grants[j]))
  }

  /**
   * The failure mode: a request fails exactly when it is larger than one
   * block, whatever the chain holds, and then nothing changes. Every
   * request of at most `N` bytes succeeds, because a new block has room.
   */
  lemma {:induction false} AllocFailsOnlyWhenTooLarge(n: nat, chain: seq<nat>, size: nat)
    requires chain != []
    ensures AllocSpec(n, chain, size).0.None? <==> size > n
    ensures AllocSpec(n, chain, size).0.None? ==> AllocSpec(n, chain, size).1 == chain
    decreases |chain|
  {
    if size <= n && n - chain[0] < size && |chain| > 1 {
      AllocFailsOnlyWhenTooLarge(n, chain[1..], size);
    }
  }

  /**
   * First fit: the request lands in the first block with room, at that
   * block's offset, or at offset 0 of a block added at the end when no block
   * has room. That block's offset grows by exactly `size`, the other blocks
   * are unchanged, and every offset stays within the capacity.
   */
  lemma {:induction false} AllocFirstFit(n: nat, chain: seq<nat>, size: nat)
    requires chain != []
    requires size <= n
    ensures var (r, after) := AllocSpec(n, chain, size);
            && r.Some?
            && var b := r.value.block;
            && b <= |chain|
            && (forall i :: 0 <= i < b ==> n - chain[i] < size)
            && (b < |chain| ==> size <= n - chain[b] && r.value.offset == chain[b] && |after| == |chain|)
            && (b == |chain| ==> r.value.offset == 0 && |after| == |chain| + 1)
            && after[b] == r.value.offset + size
            && (forall i :: 0 <= i < |chain| && i != b ==> after[i] == chain[i])
            && (Bounded(n, chain) ==> Bounded(n, after))
    decreases |chain|
  {
    if n - chain[0] < size && |chain| > 1 {
      AllocFirstFit(n, chain[1..], size);
      var (r, rest) := AllocSpec(n, chain[1..], size);
      var after := [chain[0]] + rest;
      assert forall i :: 1 <= i < |after| ==> after[i] == rest[i - 1];
      forall i | 0 <= i < r.value.block + 1
        ensures n - chain[i] < size
      {
        if i > 0 {
          assert chain[i] == chain[1..][i - 1];
        }
      }
    }
  }

  /** The request overflows the chain exactly when the first fit is a new block at its end. */
  lemma AllocOverflowsIntoNewBlock(n: nat, chain: seq<nat>, size: nat)
    requires chain != []
    requires size <= n
    ensures AllocSpec(n, chain, size).0.Some?
    ensures Overflows(n, chain, size) <==> AllocSpec(n, chain, size).0.value.block == |chain|
  {
    AllocFirstFit(n, chain, size);
  }

  /**
   * Successive allocations never overlap: a new grant lies at or past the
   * old offset of its block, so it is apart from every earlier grant.
   */
  lemma AllocKeepsGrantsApart(n: nat, chain: seq<nat>, grants: seq<Grant>, size: nat)
    requires chain != []
    requires Sound(chain, grants)
    requires size <= n
    ensures AllocSpec(n, chain, size).0.Some?
    ensures Sound(AllocSpec(n, chain, size).1, grants + [Grant(AllocSpec(n, chain, size).0.value, size)])
  {
    AllocFirstFit(n, chain, size);
    var (r, after) := AllocSpec(n, chain, size);
    var g := Grant(r.value, size);
    var all := grants + [g];
    forall i | 0 <= i < |grants|
      ensures Inside(after, grants[i]) && Apart(grants[i], g)
    {
      assert Inside(chain, grants[i]);
    }
    assert forall i :: 0 <= i < |grants| ==> all[i] == grants[i];
  }

  /** Allocating exactly `N` bytes fills a new arena; one more byte goes to a new chained block. */
  lemma FillThenChain(n: nat)
    requires n >= 1
    ensures AllocSpec(n, [0], n) == (Some(Slot(0, 0)), [n])
    ensures AllocSpec(n, [n], 1) == (Some(Slot(1, 0)), [n, 1])
    ensures AllocSpec(n, [n, 1], n + 1) == (None, [n, 1])
  {
    assert [0 + n] + [0][1..] == [n];
    assert [n] + [1] == [n, 1];
  }

  /**
   * One block of the chain. Ghost state: `Repr` is the footprint of this block
   * and the live blocks after it, `Chain` their bump offsets, `Live` whether the
   * C++ object still exists (it is false once `delete` has run on it), and
   * `Dangling` whether the chain ends in a link to a deleted block.
   */
  class ArenaAllocator {
    const N: nat
    var bytes: array<bv8>
    var ptr: nat
    var next: ArenaAllocator?

    ghost var Repr: set<object>
    ghost var Chain: seq<nat>
    ghost var Live: bool
    ghost var Dangling: bool

    ghost predicate Valid()
      reads this, Repr
      decreases Repr
    {
      && this in Repr && bytes in Repr && Live
      && bytes.Length == N && ptr <= N
      && (next == null ==> Chain == [ptr] && !Dangling && Repr == {this, bytes})
      && (next != null ==>
            && next in Repr && next != this
            && (!next.Live ==> Chain == [ptr] && Dangling && Repr == {this, bytes, next})
            && (next.Live ==>
                  && next.Repr <= Repr && this !in next.Repr && bytes !in next.Repr
                  && Repr == {this, bytes} + next.Repr
                  && next.N == N && next.Valid()
                  && Chain == [ptr] + next.Chain && Dangling == next.Dangling))
    }

    lemma ValidChain()
      requires Valid()
      ensures Chain != [] && Chain[0] == ptr && Bounded(N, Chain)
      decreases Repr
    {
      if next != null && next.Live {
        next.ValidChain();
      }
    }

    /** `ArenaAllocator()`: an empty block, its bytes zeroed, with no `next`. */
    constructor(n: nat)
      ensures Valid() && fresh(Repr)
      ensures N == n && Chain == [0] && !Dangling
      ensures bytes[..] == seq(n, _ => 0)
    {
      N := n;
      bytes := new bv8[n](_ => 0);
      ptr := 0;
      next := null;
      Repr := {this, bytes};
      Chain := [0];
      Live := true;
      Dangling := false;
    }

    /**
     * `Alloc(size)`. A request larger than `N` fails; one that fits in the
     * rest of this block is carved at `ptr`; any other goes to `next`, created
     * if there is none. The caller may not let the request reach a deleted block.
     */
    method Alloc(size: nat) returns (r: Option<Slot>)
      requires Valid()
      requires !(Dangling && Overflows(N, Chain, size))
      modifies Repr
      ensures Valid() && fresh(Repr - old(Repr)) && old(Repr) <= Repr
      ensures (r, Chain) == AllocSpec(N, old(Chain), size)
      ensures Dangling == old(Dangling)
      ensures old(next) != null ==> next == old(next)
      ensures bytes == old(bytes) && bytes[..] == old(bytes[..])
      ensures forall o: ArenaAllocator | o in old(Repr) && o != this && old(o.Live) ::
                o.bytes == old(o.bytes) && o.bytes[..] == old(o.bytes[..]) && (old(o.next) != null ==> o.next == old(o.next))
      decreases if size <= N - ptr then 0 else |Chain| + 1, 1
    {
      ValidChain();
      if size > N {
        return None;
      }
      var available := N - ptr;
      if available < size {
        r := AllocInNext(size);
        return;
      }
      r := Some(Slot(0, ptr));
      ptr := ptr + size;
      Chain := [ptr] + Chain[1..];
    }

    /** The overflow path of `Alloc`: the request goes to `next`, created if there is none. */
    method AllocInNext(size: nat) returns (r: Option<Slot>)
      requires Valid() && size <= N && N - ptr < size
      requires !(Dangling && Overflows(N, Chain, size))
      modifies Repr
      ensures Valid() && fresh(Repr - old(Repr)) && old(Repr) <= Repr
      ensures (r, Chain) == AllocSpec(N, old(Chain), size)
      ensures Dangling == old(Dangling)
      ensures old(next) != null ==> next == old(next)
      ensures bytes == old(bytes) && bytes[..] == old(bytes[..])
      ensures forall o: ArenaAllocator | o in old(Repr) && o != this && old(o.Live) ::
                o.bytes == old(o.bytes) && o.bytes[..] == old(o.bytes[..]) && (old(o.next) != null ==> o.next == old(o.next))
      decreases |Chain| + 1, 0
    {
      LinkNext(size);
      var s := next.Alloc(size);
      r := Deeper(s);
      Repr := {this, bytes} + next.Repr;
      Chain := [ptr] + next.Chain;
    }

    /**
     * `if (next == nullptr) next = new ArenaAllocator()`: afterwards `next` is a live
     * block, and the request's outcome on this chain is its outcome one block down.
     */
    method LinkNext(size: nat)
      requires Valid() && size <= N && N - ptr < size
      requires !(Dangling && Overflows(N, Chain, size))
      modifies this`next, this`Repr, this`Chain
      ensures Valid() && fresh(Repr - old(Repr)) && old(Repr) <= Repr && Dangling == old(Dangling)
      ensures next != null && next.Live && next.Chain != [] && (old(next) != null ==> next == old(next))
      ensures !(next.Dangling && Overflows(N, next.Chain, size))
      ensures size <= N - next.ptr || |next.Chain| < |old(Chain)|
      ensures AllocSpec(N, old(Chain), size) ==
              (Deeper(AllocSpec(N, next.Chain, size).0), [ptr] + AllocSpec(N, next.Chain, size).1)
    {
      ValidChain();
      ghost var before := Chain;
      if next == null {
        next := new ArenaAllocator(N);
        Repr := Repr + next.Repr;
        Chain := [ptr] + next.Chain;
        assert AllocSpec(N, next.Chain, size) == (Some(Slot(0, 0)), [size]) by {
          assert [0 + size] + [0][1..] == [size];
        }
        assert AllocSpec(N, before, size) == (Some(Slot(1, 0)), [ptr] + [size]);
      } else {
        assert next.Live;
        next.ValidChain();
        assert Overflows(N, Chain, size) <==> Overflows(N, next.Chain, size) by {
          assert forall i :: 0 <= i < |next.Chain| ==> next.Chain[i] == Chain[i + 1];
        }
        assert before[1..] == next.Chain;
      }
    }

    /** `Alloc<T>()`: room for one object of `sizeof(T) == typeSize` bytes. */
    method AllocObject(typeSize: nat) returns (r: Option<Slot>)
      requires Valid()
      requires !(Dangling && Overflows(N, Chain, typeSize))
      modifies Repr
      ensures Valid() && fresh(Repr - old(Repr)) && old(Repr) <= Repr
      ensures (r, Chain) == AllocSpec(N, old(Chain), typeSize)
      ensures Dangling == old(Dangling)
      ensures old(next) != null ==> next == old(next)
      ensures bytes == old(bytes) && bytes[..] == old(bytes[..])
      ensures forall o: ArenaAllocator | o in old(Repr) && o != this && old(o.Live) ::
                o.bytes == old(o.bytes) && o.bytes[..] == old(o.bytes[..]) && (old(o.next) != null ==> o.next == old(o.next))
    {
      r := Alloc(typeSize);
    }

    /** `AllocArray<T>(count)`: `sizeof(T) * count` bytes, a product that wraps modulo 2^64. */
    method AllocArray(elemSize: nat, count: nat) returns (r: Option<Slot>)
      requires Valid()
      requires !(Dangling && Overflows(N, Chain, (elemSize * count) % SIZE_T_MODULUS))
      modifies Repr
      ensures Valid() && fresh(Repr - old(Repr)) && old(Repr) <= Repr
      ensures (r, Chain) == AllocSpec(N, old(Chain), (elemSize * count) % SIZE_T_MODULUS)
      ensures Dangling == old(Dangling)
      ensures old(next) != null ==> next == old(next)
      ensures bytes == old(bytes) && bytes[..] == old(bytes[..])
      ensures forall o: ArenaAllocator | o in old(Repr) && o != this && old(o.Live) ::
                o.bytes == old(o.bytes) && o.bytes[..] == old(o.bytes[..]) && (old(o.next) != null ==> o.next == old(o.next))
    {
      r := Alloc((elemSize * count) % SIZE_T_MODULUS);
    }

    /**
     * `~ArenaAllocator()`: deletes `next`, which deletes the rest of the chain.
     * A link to an already deleted block would be deleted twice, so the chain
     * must not dangle.
     */
    method Destroy()
      requires Valid() && !Dangling
      modifies Repr
      ensures forall o: ArenaAllocator | o in old(Repr) :: !o.Live
      decreases Repr
    {
      if next != null {
        next.Destroy();
      }
      Live := false;
    }

    /**
     * `Free()` as written: deletes `next` but keeps the link to it, zeroes the
     * bytes and empties this block. Afterwards the chain dangles whenever it
     * had a second block.
     */
    method Free()
      requires Valid() && !Dangling
      modifies Repr
      ensures Valid() && Repr <= old(Repr)
      ensures bytes == old(bytes) && bytes[..] == seq(N, _ => 0)
      ensures ptr == 0 && Chain == [0]
      ensures next == old(next) && Dangling == (next != null)
      ensures old(next) != null ==> forall o: ArenaAllocator | o in old(next.Repr) :: !o.Live
    {
      if next != null {
        next.Destroy();
      }
      forall i | 0 <= i < bytes.Length {
        bytes[i] := 0;
      }
      ptr := 0;
      Chain := [0];
      if next != null {
        Repr := {this, bytes, next};
        Dangling := true;
      }
    }

    /** `Free()` as evidently intended: like `Free`, but the link to the deleted chain is cleared. */
    method FreeAndUnlink()
      requires Valid() && !Dangling
      modifies Repr
      ensures Valid() && Repr <= old(Repr)
      ensures bytes == old(bytes) && bytes[..] == seq(N, _ => 0)
      ensures ptr == 0 && Chain == [0]
      ensures next == null && !Dangling
      ensures old(next) != null ==> forall o: ArenaAllocator | o in old(next.Repr) :: !o.Live
    {
      if next != null {
        next.Destroy();
      }
      next := null;
      forall i | 0 <= i < bytes.Length {
        bytes[i] := 0;
      }
      ptr := 0;
      Chain := [0];
      Repr := {this, bytes};
    }
  }

  /**
   * Two one-byte requests on a one-byte arena chain a second block; after
   * `Free` the first block still links to the deleted second one, so the
   * destructor (`Destroy`, which requires `!Dangling`) would delete it again.
   */
  method FreeLeavesDanglingLink() returns (a: ArenaAllocator)
    ensures fresh(a) && a.Valid()
    ensures a.Chain == [0] && a.next != null && !a.next.Live && a.Dangling
  {
    a := new ArenaAllocator(1);
    var first := a.Alloc(1);
    assert first == Some(Slot(0, 0));
    var second := a.Alloc(1);
    assert second == Some(Slot(1, 0));
    a.Free();
  }

  /** The same sequence with the corrected `FreeAndUnlink`: the arena can be reused and destroyed. */
  method FreeAndUnlinkThenReuse() returns (third: Option<Slot>, fourth: Option<Slot>)
    ensures third == Some(Slot(0, 0)) && fourth == Some(Slot(1, 0))
  {
    var a := new ArenaAllocator(1);
    var first := a.Alloc(1);
    var second := a.Alloc(1);
    a.FreeAndUnlink();
    third := a.Alloc(1);
    fourth := a.Alloc(1);
    a.Destroy();
  }
}
