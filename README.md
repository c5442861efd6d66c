# SunWorld engine core: arena allocator, asset lookup, tick timer

This project is a Dafny model of three stateful components of the SunWorld 2D game engine, with proofs about them.

- **`ArenaAllocator<N>`** (src/engine/allocator.h) is a bump allocator with a fixed block size `N`. A block hands out bytes from its bump offset `ptr`. A request that does not fit goes to the block's `next`, which is created when first needed. A request larger than `N` fails.
  The model is the class `Allocator.ArenaAllocator`, one object per block. Ghost state gives its footprint (`Repr`), the bump offsets of the live chain (`Chain`), whether the C++ object still exists (`Live`), and whether the chain ends in a link to a deleted block (`Dangling`).
  An allocation's result is a `Slot`, meaning a (block index, offset) pair, instead of a raw pointer. Every allocation method (`Alloc`, `AllocInNext`, `AllocObject`, `AllocArray`) is proved against the pure function `AllocSpec`, and the allocator's properties are lemmas about that function. The constructor, `Destroy`, `Free` and `FreeAndUnlink` state the new block state directly.
- **`AssetManager`** (src/engine/assets.h, src/engine/assets.cpp) has `AddSearchDir`, `GetTexture` and `GetSound`, and a destructor that unloads every cached entry.
  A lookup first asks the parent manager, which runs its own full public lookup. It then checks the local cache. Last, it tries the candidate paths: the bare identifier, then each search directory with the identifier appended. The first candidate that exists and decodes is cached under the identifier and returned.
  The file system and the raylib decoders are a `Disk` value. `Disk` holds the set of paths `std::filesystem::exists` accepts, plus what image and sound decoding yields at each path.
  `GetTexture` and `GetSound` are proved against the pure function `Resolve`. The other methods of `Assets.AssetManager` have their own contracts: `AddSearchDir` and `Destroy` state the new state directly, and `CandidatePaths`, `LoadTextureHere` and `LoadSoundHere` are proved against `Candidates` and `LoadLocal`. `Resolve` works on the chain of managers: the one asked, then its parent, and so on up.
- **`TickTimer`** (src/engine/timer.cpp) decides when the next tick is due, using `lastTick` and `tickTime`. Each reading of the wall clock is a parameter. `ShouldTick` reads the clock twice, so it takes two readings.
  C++ integer division truncates toward zero, which `TruncDiv` models. `GetElapsedTicks` casts both operands to 32-bit `int`, which `ToInt32` models.

The files are `wrappers.dfy` (an `Option` type), `allocator.dfy`, `assets.dfy` and `timer.dfy`. There is one module per component. `Assets` covers both assets.h and assets.cpp, and `Wrappers` is a helper with no source counterpart.

The code asks the parent first (src/engine/assets.cpp:29-40), before the manager's own cache.
`TickTimer::GetElapsedTicks` is defined in src/engine/timer.cpp:49-57, but src/engine/timer.h does not declare it. It is modelled as defined.

## Model

| member | source | states |
|---|---|---|
| `Allocator.AllocSpec` | src/engine/allocator.h:21-42 | The reference model of `Alloc` on the chain's offsets. It returns the slot granted, or none, plus the new offsets. The chain grows by at most one block, and only for a successful request. |
| `Allocator.AllocFailsOnlyWhenTooLarge` | src/engine/allocator.h:21-37 | A request fails iff it is larger than `N`, whatever the chain holds. A failed request changes no block. Every request of at most `N` bytes succeeds, because a new block can always take it. |
| `Allocator.AllocFirstFit` | src/engine/allocator.h:29-41 | A request of at most `N` bytes lands in the first block with room, at that block's offset `ptr`. If no block has room, it lands at offset 0 of a block added at the end. That block's offset grows by exactly `size`. Every other block is unchanged, and every offset stays within `N`. |
| `Allocator.AllocOverflowsIntoNewBlock` | src/engine/allocator.h:31-37 | A new block is chained exactly when no existing block has room for the request. |
| `Allocator.AllocKeepsGrantsApart` | src/engine/allocator.h:39-41 | Applied to any set of earlier grants that lie in used space and do not overlap, a successful allocation keeps both facts true. So successive allocations never share a byte. |
| `Allocator.FillThenChain` | src/engine/allocator.h:29-41 | Allocating exactly `N` bytes from an empty arena uses offset 0 of the first block. A following 1-byte request goes to offset 0 of a newly chained block. A request of `N+1` bytes then fails and changes nothing. |
| `Allocator.ArenaAllocator.ValidChain` | src/engine/allocator.h:60-63 | For a well-formed chain, the recorded offsets start with this block's `ptr`, and every offset is at most `N`. |
| `Allocator.ArenaAllocator.constructor` | src/engine/allocator.h:11-13 | A new block has zeroed bytes, `ptr == 0` and no `next`. |
| `Allocator.ArenaAllocator.Alloc` | src/engine/allocator.h:21-42 | The answer and the new offsets are exactly `AllocSpec` of the old offsets. An existing `next` is kept, so `next` is created only when it is null. The block keeps its byte array and the bytes in it, and so does every live block further down the chain, along with its link. Storage never moves. A well-formed chain stays well formed. |
| `Allocator.ArenaAllocator.AllocInNext` | src/engine/allocator.h:31-36 | The overflow path of `Alloc`: the request goes one block down. It has the same guarantees as `Alloc`: `AllocSpec` of the old offsets, an existing `next` kept, and the bytes and links of this block and of every live block below it unchanged. |
| `Allocator.ArenaAllocator.LinkNext` | src/engine/allocator.h:33-35 | Afterwards `next` is a live block, and an existing `next` is kept. The request's outcome on this chain is its outcome one block down, with the slot's block index raised by one. |
| `Allocator.ArenaAllocator.AllocObject` | src/engine/allocator.h:43-47 | `Alloc<T>()` is `Alloc(sizeof(T))`, with the same guarantees: `AllocSpec` of the old offsets, the same `next`, and the bytes and links of every live block unchanged. |
| `Allocator.ArenaAllocator.AllocArray` | src/engine/allocator.h:55-59 | `AllocArray<T>(count)` is `Alloc(sizeof(T) * count)`, with the product wrapping modulo 2^64 as `size_t` does. The same guarantees as `Alloc` hold, including unchanged bytes and links in every live block. |
| `Allocator.ArenaAllocator.Destroy` | src/engine/allocator.h:14-20 | The destructor deletes this block and, recursively, every block chained after it: no block of the old footprint stays live. It may not meet a block that was already deleted. |
| `Allocator.ArenaAllocator.Free` | src/engine/allocator.h:48-54 | The code as written: bytes are zeroed and `ptr == 0`. Every block of the old `next` chain is deleted, but `next` keeps its old value, so a chain of two or more blocks is left dangling. |
| `Allocator.ArenaAllocator.FreeAndUnlink` | src/engine/allocator.h:48-54 | `Free` as evidently intended: every block of the old `next` chain is deleted, the bytes are zeroed and `ptr == 0`. `next` becomes null, so the arena is a well-formed, non-dangling single block. |
| `Allocator.FreeLeavesDanglingLink` | src/engine/allocator.h:48-54 | On a 1-byte arena, two 1-byte requests chain a second block. After `Free`, the first block still links to the deleted second block. |
| `Allocator.FreeAndUnlinkThenReuse` | src/engine/allocator.h:48-54 | The same sequence with the corrected `FreeAndUnlink` reuses the first block, then chains a fresh second one, and the arena can be destroyed. |
| `Assets.Candidates` | src/engine/assets.cpp:42-50 | The candidate list is `[id]` followed by `dir + id` for each search directory, in order. The strings are concatenated with no separator. |
| `Assets.AssetManager.CandidatePaths` | src/engine/assets.cpp:42-50 | The loop that builds `paths` produces exactly `Candidates(id, searchDirs)`. |
| `Assets.FirstLoadable` | src/engine/assets.cpp:53-71 | Gives the position of the first candidate that exists and decodes, or the list's length if there is none. No earlier candidate is usable. |
| `Assets.LoadLocal` | src/engine/assets.cpp:38-73 | The lookup in one manager after its parent has missed: the cache, then the first candidate that exists and decodes. Search directories never change. A hit is cached under `id`, and a miss leaves the manager as it was. |
| `Assets.Resolve` | src/engine/assets.cpp:27-75 | The reference model of `GetTexture` and `GetSound` over the chain of managers, from the one asked up to the root. It returns the answer and the new state of every manager in the chain. |
| `Assets.LoadLocalFirstMatch` | src/engine/assets.cpp:53-73 | Without a cache entry, the lookup succeeds iff some candidate exists and decodes. It returns what the first such candidate decodes to and caches it under `id`, not under the path. Otherwise the manager is unchanged. |
| `Assets.LoadLocalCacheHit` | src/engine/assets.cpp:38-40 | A cache hit returns the cached value and changes nothing, whatever the disk holds. |
| `Assets.OnlyCandidatesMatter` | src/engine/assets.h:48-51 | The search is not recursive: two disks that agree on the candidate paths give the same lookup. |
| `Assets.LoadLocalMiss` | src/engine/assets.cpp:38-73 | One manager's own lookup misses iff `id` is not cached and no candidate path exists and decodes. It then leaves the manager unchanged. |
| `Assets.ResolveNone` | src/engine/assets.cpp:29-75 | The chain lookup misses iff every manager's own lookup misses. On a miss, every manager is left as it was. |
| `Assets.ResolveMiss` | src/engine/assets.cpp:55-73 | A lookup misses iff no manager up the chain has `id` cached or loadable. Missing paths and failed decodes are skipped. On a miss, no cache changes. |
| `Assets.ResolveFromOutermost` | src/engine/assets.cpp:29-36 | The outermost ancestor that has `id` cached or loadable answers, and it is the only manager whose cache may change. A parent can therefore load and cache from its own search directories. |
| `Assets.AllParentsMiss` | src/engine/assets.cpp:29-75 | When every manager up the parent chain misses, the asking manager's own lookup is the answer, and it is the only manager that changes. |
| `Assets.ParentAnswersFirst` | src/engine/assets.cpp:29-36 | When the parent chain returns a value, that value is returned and the asking manager is untouched. |
| `Assets.CacheHitSkipsDisk` | src/engine/assets.cpp:38-40 | If the parent chain misses and `id` is cached locally, the cached value is returned and no manager changes. |
| `Assets.ResolveIdempotent` | src/engine/assets.cpp:38-40 | Repeating a lookup on the same disk returns the same value and changes nothing more. |
| `Assets.ReleaseAll` | src/engine/assets.cpp:13-19 | The destructor's loop over one cache visits every entry exactly once, with the value cached under its key. |
| `Assets.AssetManager.Default` | src/engine/assets.h:45 | A default-constructed manager has no parent, no search directory and empty caches. |
| `Assets.AssetManager.constructor` | src/engine/assets.cpp:7-9 | The parent constructor stores the given pointer. The new manager's ancestry is itself plus the parent's ancestry. |
| `Assets.AssetManager.AddSearchDir` | src/engine/assets.cpp:23-25 | Appends `dir` after the existing search directories and changes nothing else. |
| `Assets.AssetManager.LoadTextureHere` | src/engine/assets.cpp:38-73 | The local part of `GetTexture`, meaning the cache and then the scan of candidates, computes exactly `LoadLocal`. |
| `Assets.AssetManager.LoadSoundHere` | src/engine/assets.cpp:88-120 | The local part of `GetSound`, under the same specification. A sound counts as decoded when its stream buffer is not null. |
| `Assets.AssetManager.GetTexture` | src/engine/assets.cpp:27-75 | The answer and every texture cache up the chain afterwards are exactly `Resolve` of the old chain. Only texture caches may change. |
| `Assets.AssetManager.GetSound` | src/engine/assets.cpp:77-122 | The answer and every sound cache up the chain afterwards are exactly `Resolve` of the old chain. Only sound caches may change. |
| `Assets.AssetManager.Destroy` | src/engine/assets.cpp:11-21 | Every cached texture and every cached sound is unloaded exactly once. |
| `Timer.TruncDiv` | src/engine/timer.cpp:54 | C++ integer division: the remainder is smaller than the divisor in magnitude and takes the sign of the dividend. |
| `Timer.ToInt32` | src/engine/timer.cpp:51-52 | `static_cast<int>` keeps the value modulo 2^32, in the signed 32-bit range. |
| `Timer.TickLength` | src/engine/timer.cpp:15 | `1000 / ticksPerSecond` with truncating division. For a positive rate, `ticksPerSecond * t <= 1000 < ticksPerSecond * (t + 1)`, so it is the floor of `1000 / ticksPerSecond`. |
| `Timer.Step` | src/engine/timer.cpp:32-47 | One call of `ShouldTick` as a function of the state. A call that does not tick keeps `lastTick`. On readings that do not go back, a tick moves `lastTick` forward by at least one tick length and not past the second reading. |
| `Timer.Run` | src/engine/timer.cpp:32-47 | `ShouldTick` called once per pair of readings. It returns the number of true answers, at most the number of calls, and the final `lastTick`. |
| `Timer.TwentyTicksPerSecond` | src/engine/timer.cpp:13-18 | The game's 20 ticks per second gives a 50 ms tick. |
| `Timer.FastRateHasZeroTickLength` | src/engine/timer.cpp:15 | A rate above 1000 ticks per second truncates the tick length to 0. `GetElapsedTicks` then divides by zero. |
| `Timer.NoDoubleTick` | src/engine/timer.cpp:32-47 | With a positive tick length and a clock that has not advanced, a true answer is followed by a false one. |
| `Timer.RunRateLimited` | src/engine/timer.cpp:32-47 | On a clock that never goes back, the number of ticks times the tick length is at most the time elapsed since the start. |
| `Timer.TickTimer.constructor` | src/engine/timer.cpp:13-18 | `tickTime = 1000 / ticksPerSecond` with truncating division, and `lastTick` is the current time. |
| `Timer.TickTimer.Reset` | src/engine/timer.cpp:20-24 | `lastTick` becomes the current time. |
| `Timer.TickTimer.ElapsedMillis` | src/engine/timer.cpp:26-30 | Gives the milliseconds since `lastTick`. |
| `Timer.TickTimer.ShouldTick` | src/engine/timer.cpp:32-47 | Returns true iff `now - lastTick >= tickTime`, where `now` is the first clock reading. Only then is `lastTick` restamped, with the second reading. This is one `Step` of the old state, the step that `RunRateLimited` reasons about. |
| `Timer.TickTimer.ElapsedTicks` | src/engine/timer.cpp:49-57 | Gives the whole ticks elapsed. For a non-negative elapsed time and a positive tick length, it is the largest `n` with `n * tickTime <= elapsed`. The result always fits in a 32-bit `int`. A zero divisor and the overflowing `INT_MIN / -1` are excluded. |

## Left out

- `ParseDictionary`, `IsPositiveInt`, `ParsePositiveIntList`, `Base64Decode` and `BuildSpriteAtlas` (src/engine/assets.h:161-171) are outside this model, which covers the lookup, the allocator and the timer.
- `FreeTexture`, `FreeSound`, `LoadRawImage`, `UploadCustomTexture`, `ReadResourceFile`, `GetAnimation`, `_GetTexture` and `_GetSound` are only declared, so they are not part of this model. The same holds for the `loadedAnimations` cache and the `animationAllocator` arena, which only `GetAnimation` would use.
- The `Animation` class, `FontRenderer` and `SoundQueue` are only declared, so they are not part of this model.
- The raylib calls and `std::filesystem::exists` are a `Disk` value. `LoadImage` followed by `LoadTextureFromImage` is modelled as a fixed texture per path. `UnloadImage` and the GPU upload itself are not modelled.
- Log messages (src/io/debug.h) are left out. Apart from the one in `Alloc` (next line), they do not affect control flow.
- Allocator.ArenaAllocator.Alloc: the oversize path at src/engine/allocator.h:24 logs with `printf`, passing `size` for `%i` and the `size_t` `INITIAL_BYTES` for `%s`. Logging is on (src/io/debug.h:15), so that call is undefined behaviour and would most likely read a string at address `N`. The model follows the evidently intended behaviour, which is to log and then return null at :25, so `AllocFailsOnlyWhenTooLarge` describes intent, not the code as written.
- Arena memory is modelled as offsets. The block's bytes are an `array<bv8>` that the constructor and `Free` zero. Pointer casts and the contents of allocated objects are not modelled.
- Allocator.ArenaAllocator.Alloc: the request size is an unbounded `nat` rather than a 64-bit `size_t`. No result depends on the bound, because a request larger than `N` fails first.
- Allocator.ArenaAllocator.Alloc: a request that would reach a deleted block is excluded by the precondition. In the source that step is undefined behaviour (use after free), not a modelled error.
- Timer.RunRateLimited: the rate limit assumes a clock that never goes back. `Now()` reads `std::chrono::system_clock` (src/engine/timer.cpp:9), which can be set backwards, so the wall clock does not guarantee this.
- `TickTimer::Now()` (the wall clock) becomes parameters. `GetPartialTick` works in floating point and is not modelled.
- Timer.TickTimer.ElapsedMillis and Timer.TickTimer.ShouldTick: `long long` overflow of `Now() - lastTick` (src/engine/timer.cpp:28) is not modelled. Millisecond timestamps stay far below 2^63.
- Timer.TickTimer.constructor: a zero `ticksPerSecond` is excluded by the precondition. In the source, `1000/ticksPerSecond` at src/engine/timer.cpp:15 is then a division by zero.
- Allocator.ArenaAllocator.Free: a chain that already dangles is excluded by the precondition. In the source, a second `Free()` deletes the stale `next` again (src/engine/allocator.h:49-50), which is undefined behaviour.
- Timer.TickTimer.ElapsedTicks: a zero tick length is excluded by the precondition. In the source it is a division by zero.
- Timer.TickTimer.ElapsedTicks: the precondition also excludes `INT_MIN / -1` at src/engine/timer.cpp:54, which can happen because a rate between -1000 and -501 gives `tickTime == -1`. That quotient overflows `int`, which is undefined behaviour in C++.
- The game loop, screens, rendering and the global state (src/main.cpp, src/gameplay/, src/engine/render.cpp) are glue over raylib, outside this model.

## Findings

| source | as written | input that shows it | evidently intended | confidence | as-written member | corrected member |
|---|---|---|---|---|---|---|
| src/engine/allocator.h:48-54 | `Free()` deletes `next` but does not set it to null | `ArenaAllocator<1>`: `Alloc(1)`, `Alloc(1)` (chains a second block), `Free()`. Then the destructor deletes the second block again, and a later `Alloc(1)` after the first block refills would use it after it was freed. | `Free()` sets `next = nullptr` after deleting it | not executed; high | `Allocator.FreeLeavesDanglingLink` | `Allocator.ArenaAllocator.FreeAndUnlink` |
