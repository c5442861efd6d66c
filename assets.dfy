/**
 * Texture and sound lookup of `AssetManager` (src/engine/assets.h, src/engine/assets.cpp).
 *
 * A manager first asks its parent (which runs its own full lookup), then its
 * own cache, then tries the bare identifier and each search directory
 * prefixed to it, in order; the first path that exists and decodes is cached
 * under the identifier. The file system and the decoders are a `Disk` value:
 * the paths that exist, and what image and sound decoding yields at a path.
 */
module Assets {
  import opened Wrappers

  /** A texture handle, as `LoadTextureFromImage` returns it. */
  datatype Texture = Texture(handle: nat)

  /** A sound handle, as `LoadSound` returns it when its stream buffer is not null. */
  datatype Sound = Sound(handle: nat)

  /**
   * The outside world one lookup sees: `existing` is where `std::filesystem::exists`
   * answers true; a path is in `images` (in `sounds`) when decoding it succeeds,
   * mapped to the texture uploaded from it (the sound loaded from it).
   */
  datatype Disk = Disk(existing: set<string>, images: map<string, Texture>, sounds: map<string, Sound>)

  /** What one manager contributes to a lookup of one resource kind: its search directories and its cache. */
  datatype Layer<R> = Layer(searchDirs: seq<string>, cache: map<string, R>)

  /** The paths tried for `id`: the identifier itself, then each directory with the identifier appended, no separator added. */
  function Candidates(id: string, dirs: seq<string>): (paths: seq<string>)
    ensures |paths| == |dirs| + 1 && paths[0] == id
    ensures forall j :: 0 <= j < |dirs| ==> paths[j + 1] == dirs[j] + id
    decreases |dirs|
  {
    if dirs == [] then [id]
    else Candidates(id, dirs[..|dirs| - 1]) + [dirs[|dirs| - 1] + id]
  }

  /** A path is used when it exists and decodes. */
  predicate Loadable<R>(path: string, existing: set<string>, decoded: map<string, R>)
  {
    path in existing && path in decoded
  }

  /** The position of the first usable path, or `|paths|` when there is none. */
  function FirstLoadable<R>(paths: seq<string>, existing: set<string>, decoded: map<string, R>): (k: nat)
    ensures k <= |paths|
    ensures forall j :: 0 <= j < k ==> !Loadable(paths[j], existing, decoded)
    ensures k < |paths| ==> Loadable(paths[k], existing, decoded)
    decreases |paths|
  {
    if paths == [] then 0
    else if Loadable(paths[0], existing, decoded) then 0
    else 1 + FirstLoadable(paths[1..], existing, decoded)
  }

  /** The lookup in one manager once its parent has missed: cache, then candidate paths. */
  function LoadLocal<R>(layer: Layer<R>, existing: set<string>, decoded: map<string, R>, id: string): (r: (Option<R>, Layer<R>))
    ensures r.1.searchDirs == layer.searchDirs
    ensures r.0.Some? ==> id in r.1.cache && r.1.cache[id] == r.0.value
    ensures r.0.None? ==> r.1 == layer
  {
    if id in layer.cache then (Some(layer.cache[id]), layer)
    else
      var paths := Candidates(id, layer.searchDirs);
      var k := FirstLoadable(paths, existing, decoded);
      if k < |paths| then
        var found := decoded[paths[k]];
        (Some(found), layer.(cache := layer.cache[id := found]))
      else (None, layer)
  }

  /**
   * The full lookup of `GetTexture`/`GetSound` on a chain of managers:
   * `layers[0]` is the manager asked, `layers[1]` its parent, and so on.
   */
  function Resolve<R>(layers: seq<Layer<R>>, existing: set<string>, decoded: map<string, R>, id: string): (r: (Option<R>, seq<Layer<R>>))
    requires layers != []
    ensures |r.1| == |layers|
    decreases |layers|
  {
    if |layers| == 1 then
      var own := LoadLocal(layers[0], existing, decoded, id);
      (own.0, [own.1])
    else
      var up := Resolve(layers[1..], existing, decoded, id);
      if up.0.Some? then (up.0, [layers[0]] + up.1)
      else
        var own := LoadLocal(layers[0], existing, decoded, id);
        (own.0, [own.1] + up.1)
  }

  /** The manager neither has `id` cached nor can load it from any of its candidate paths. */
  ghost predicate Absent<R>(layer: Layer<R>, existing: set<string>, decoded: map<string, R>, id: string)
  {
    id !in layer.cache &&
    FirstLoadable(Candidates(id, layer.searchDirs), existing, decoded) == |layer.searchDirs| + 1
  }

  /** Some path of the list exists and decodes. */
  predicate AnyLoadable<R>(paths: seq<string>, existing: set<string>, decoded: map<string, R>)
  {
    exists k :: 0 <= k < |paths| && Loadable(paths[k], existing, decoded)
  }

  /** Some path is loadable exactly when the scan stops before the end of the list. */
  lemma FirstLoadableFound<R>(paths: seq<string>, existing: set<string>, decoded: map<string, R>)
    ensures FirstLoadable(paths, existing, decoded) < |paths| <==> AnyLoadable(paths, existing, decoded)
  {
    var f := FirstLoadable(paths, existing, decoded);
    if f < |paths| {
      assert Loadable(paths[f], existing, decoded);
    }
  }

  /**
   * First match wins: without a cache entry, the lookup succeeds exactly when
   * some candidate exists and decodes; it returns what the first such
   * candidate decodes to and caches it under `id`, not under the path.
   * Otherwise the manager is unchanged.
   */
  lemma LoadLocalFirstMatch<R>(layer: Layer<R>, existing: set<string>, decoded: map<string, R>, id: string)
    requires id !in layer.cache
    ensures var paths := Candidates(id, layer.searchDirs);
            var res := LoadLocal(layer, existing, decoded, id);
            && (res.0.Some? <==> AnyLoadable(paths, existing, decoded))
            && (res.0.None? ==> res.1 == layer)
            && (res.0.Some? ==> res.1 == layer.(cache := layer.cache[id := res.0.value]))
            && (forall k ::
                  (0 <= k < |paths| && Loadable(paths[k], existing, decoded) &&
                   (forall j :: 0 <= j < k ==> !Loadable(paths[j], existing, decoded)))
                  ==> res.0 == Some(decoded[paths[k]]))
  {
    FirstLoadableFound(Candidates(id, layer.searchDirs), existing, decoded);
  }

  /** A cache hit returns the cached value and changes nothing, whatever the disk holds. */
  lemma LoadLocalCacheHit<R>(layer: Layer<R>, existing: set<string>, decoded: map<string, R>, id: string)
    requires id in layer.cache
    ensures LoadLocal(layer, existing, decoded, id) == (Some(layer.cache[id]), layer)
  {
  }

  /**
   * The search is not recursive: only the candidate paths matter. Two disks
   * that agree on them (existence, decoding and decoded value) give the same lookup.
   */
  lemma OnlyCandidatesMatter<R>(layer: Layer<R>, e1: set<string>, d1: map<string, R>, e2: set<string>, d2: map<string, R>, id: string)
    requires forall p :: p in Candidates(id, layer.searchDirs) ==>
               (Loadable(p, e1, d1) <==> Loadable(p, e2, d2)) && (Loadable(p, e1, d1) ==> d1[p] == d2[p])
    ensures LoadLocal(layer, e1, d1, id) == LoadLocal(layer, e2, d2, id)
  {
    var paths := Candidates(id, layer.searchDirs);
    var f1, f2 := FirstLoadable(paths, e1, d1), FirstLoadable(paths, e2, d2);
    assert f1 == f2;
  }

  /** One manager misses exactly when it is `Absent`, and then it is unchanged. */
  lemma LoadLocalMiss<R>(layer: Layer<R>, existing: set<string>, decoded: map<string, R>, id: string)
    ensures LoadLocal(layer, existing, decoded, id).0.None? <==> Absent(layer, existing, decoded, id)
    ensures LoadLocal(layer, existing, decoded, id).0.None? ==> LoadLocal(layer, existing, decoded, id).1 == layer
  {
  }

  /** A lookup misses exactly when every manager's own lookup misses, and then no cache changes. */
  lemma {:induction false} ResolveNone<R>(layers: seq<Layer<R>>, existing: set<string>, decoded: map<string, R>, id: string)
    requires layers != []
    ensures Resolve(layers, existing, decoded, id).0.None? <==>
            forall i :: 0 <= i < |layers| ==> LoadLocal(layers[i], existing, decoded, id).0.None?
    ensures Resolve(layers, existing, decoded, id).0.None? ==> Resolve(layers, existing, decoded, id).1 == layers
    decreases |layers|
  {
    if |layers| > 1 {
      var up := layers[1..];
      ResolveNone(up, existing, decoded, id);
      forall i | 1 <= i < |layers| ensures layers[i] == up[i - 1] { }
      var fromUp := Resolve(up, existing, decoded, id);
      var own := LoadLocal(layers[0], existing, decoded, id);
      assert Resolve(layers, existing, decoded, id) ==
        if fromUp.0.Some? then (fromUp.0, [layers[0]] + fromUp.1) else (own.0, [own.1] + fromUp.1);
      if fromUp.0.Some? {
        var j :| 0 <= j < |up| && LoadLocal(up[j], existing, decoded, id).0.Some?;
        assert layers[j + 1] == up[j];
      } else {
        assert layers == [layers[0]] + up;
      }
    }
  }

  /**
   * A lookup misses exactly when no manager of the chain has `id` cached or
   * loadable, and then no cache changes.
   */
  lemma {:induction false} ResolveMiss<R>(layers: seq<Layer<R>>, existing: set<string>, decoded: map<string, R>, id: string)
    requires layers != []
    ensures Resolve(layers, existing, decoded, id).0.None? <==>
            forall i :: 0 <= i < |layers| ==> Absent(layers[i], existing, decoded, id)
    ensures Resolve(layers, existing, decoded, id).0.None? ==> Resolve(layers, existing, decoded, id).1 == layers
  {
    ResolveNone(layers, existing, decoded, id);
    forall i | 0 <= i < |layers|
      ensures LoadLocal(layers[i], existing, decoded, id).0.None? <==> Absent(layers[i], existing, decoded, id)
    {
      LoadLocalMiss(layers[i], existing, decoded, id);
    }
  }

  /**
   * Which manager answers: the outermost ancestor that has `id` cached or
   * loadable. Its own lookup is the result, it is the only manager whose
   * cache may change, and every manager nearer the one asked is untouched
   * (in particular the asking manager's cache when a parent answers).
   */
  lemma {:induction false} ResolveFromOutermost<R>(layers: seq<Layer<R>>, existing: set<string>, decoded: map<string, R>, id: string, i: nat)
    requires i < |layers|
    requires !Absent(layers[i], existing, decoded, id)
    requires forall j :: i < j < |layers| ==> Absent(layers[j], existing, decoded, id)
    ensures var own := LoadLocal(layers[i], existing, decoded, id);
            && own.0.Some?
            && Resolve(layers, existing, decoded, id) == (own.0, layers[i := own.1])
    decreases |layers|
  {
    var own := LoadLocal(layers[i], existing, decoded, id);
    if |layers| > 1 {
      var up := layers[1..];
      var fromUp := Resolve(up, existing, decoded, id);
      assert Resolve(layers, existing, decoded, id) ==
             if fromUp.0.Some? then (fromUp.0, [layers[0]] + fromUp.1)
             else (LoadLocal(layers[0], existing, decoded, id).0, [LoadLocal(layers[0], existing, decoded, id).1] + fromUp.1);
      if i == 0 {
        AllParentsMiss(layers, existing, decoded, id);
      } else {
        assert up[i - 1] == layers[i];
        assert forall j :: i - 1 < j < |up| ==> Absent(up[j], existing, decoded, id) by {
          forall j | i - 1 < j < |up| ensures Absent(up[j], existing, decoded, id) {
            assert up[j] == layers[j + 1];
          }
        }
        ResolveFromOutermost(up, existing, decoded, id, i - 1);
        assert layers[i := own.1] == [layers[0]] + up[i - 1 := own.1];
      }
    } else {
      assert layers[i := own.1] == [own.1];
    }
  }

  /** When every parent misses, the asking manager's own lookup is the answer and only it changes. */
  lemma AllParentsMiss<R>(layers: seq<Layer<R>>, existing: set<string>, decoded: map<string, R>, id: string)
    requires |layers| > 1
    requires forall j :: 0 < j < |layers| ==> Absent(layers[j], existing, decoded, id)
    ensures var own := LoadLocal(layers[0], existing, decoded, id);
            Resolve(layers, existing, decoded, id) == (own.0, layers[0 := own.1])
  {
    var up := layers[1..];
    assert forall j :: 0 <= j < |up| ==> Absent(up[j], existing, decoded, id) by {
      forall j | 0 <= j < |up| ensures Absent(up[j], existing, decoded, id) {
        assert up[j] == layers[j + 1];
      }
    }
    ResolveMiss(up, existing, decoded, id);
    var own := LoadLocal(layers[0], existing, decoded, id);
    assert layers[0 := own.1] == [own.1] + up;
  }

  /** When the parent chain answers, its answer is returned and the asking manager is unchanged. */
  lemma ParentAnswersFirst<R>(layers: seq<Layer<R>>, existing: set<string>, decoded: map<string, R>, id: string)
    requires |layers| > 1
    requires Resolve(layers[1..], existing, decoded, id).0.Some?
    ensures Resolve(layers, existing, decoded, id).0 == Resolve(layers[1..], existing, decoded, id).0
    ensures Resolve(layers, existing, decoded, id).1[0] == layers[0]
  {
  }

  /**
   * A local cache hit after the parent chain has missed returns the cached
   * value and changes nothing: no candidate path is looked at.
   */
  lemma CacheHitSkipsDisk<R>(layers: seq<Layer<R>>, existing: set<string>, decoded: map<string, R>, id: string)
    requires layers != [] && id in layers[0].cache
    requires |layers| > 1 ==> Resolve(layers[1..], existing, decoded, id).0.None?
    ensures Resolve(layers, existing, decoded, id) == (Some(layers[0].cache[id]), layers)
  {
    if |layers| > 1 {
      ResolveMiss(layers[1..], existing, decoded, id);
      assert layers == [layers[0]] + layers[1..];
    } else {
      assert layers == [layers[0]];
    }
  }

  /** A repeated lookup of the same identifier on the same disk returns the same answer and changes nothing more. */
  lemma {:induction false} ResolveIdempotent<R>(layers: seq<Layer<R>>, existing: set<string>, decoded: map<string, R>, id: string)
    requires layers != []
    ensures |Resolve(layers, existing, decoded, id).1| == |layers|
    ensures var (r, after) := Resolve(layers, existing, decoded, id);
            Resolve(after, existing, decoded, id) == (r, after)
    decreases |layers|
  {
    if |layers| > 1 {
      var up := layers[1..];
      ResolveIdempotent(up, existing, decoded, id);
      var (fromParent, parents) := Resolve(up, existing, decoded, id);
      var (r, after) := Resolve(layers, existing, decoded, id);
      assert after[1..] == parents;
    }
  }

  /** Each cache key is released once, paired with the value cached under it. */
  function Ids<R>(entries: seq<(string, R)>): set<string>
    decreases |entries|
  {
    if entries == [] then {} else Ids(entries[..|entries| - 1]) + {entries[|entries| - 1].0}
  }

  lemma IdsSnoc<R>(entries: seq<(string, R)>, e: (string, R))
    ensures Ids(entries + [e]) == Ids(entries) + {e.0}
  {
    assert (entries + [e])[..|entries|] == entries;
  }

  /** Releasing one more entry keeps the destructor loop's invariants. */
  lemma ReleaseStep<R>(cache: map<string, R>, released: seq<(string, R)>, rest: set<string>, id: string)
    requires id in rest && rest !! Ids(released) && rest + Ids(released) == cache.Keys
    requires forall i :: 0 <= i < |released| ==> released[i].0 in cache && released[i].1 == cache[released[i].0]
    requires forall i, j :: 0 <= i < j < |released| ==> released[i].0 != released[j].0
    requires forall i :: 0 <= i < |released| ==> released[i].0 !in rest
    ensures var next := released + [(id, cache[id])];
            && (rest - {id}) !! Ids(next) && (rest - {id}) + Ids(next) == cache.Keys
            && (forall i :: 0 <= i < |next| ==> next[i].0 in cache && next[i].1 == cache[next[i].0])
            && (forall i, j :: 0 <= i < j < |next| ==> next[i].0 != next[j].0)
            && (forall i :: 0 <= i < |next| ==> next[i].0 !in rest - {id})
  {
    var next := released + [(id, cache[id])];
    IdsSnoc(released, (id, cache[id]));
    assert next[|released|].0 == id;
    forall i | 0 <= i < |released| ensures next[i] == released[i] { }
  }

  /** The destructor's loop over one cache: every entry visited exactly once. */
  method ReleaseAll<R>(cache: map<string, R>) returns (released: seq<(string, R)>)
    ensures Ids(released) == cache.Keys
    ensures forall i :: 0 <= i < |released| ==> released[i].0 in cache && released[i].1 == cache[released[i].0]
    ensures forall i, j :: 0 <= i < j < |released| ==> released[i].0 != released[j].0
  {
    released := [];
    var rest := cache.Keys;
    while rest != {}
      invariant rest !! Ids(released) && rest + Ids(released) == cache.Keys
      invariant forall i :: 0 <= i < |released| ==> released[i].0 in cache && released[i].1 == cache[released[i].0]
      invariant forall i, j :: 0 <= i < j < |released| ==> released[i].0 != released[j].0
      invariant forall i :: 0 <= i < |released| ==> released[i].0 !in rest
      decreases |rest|
    {
      var id :| id in rest;
      ReleaseStep(cache, released, rest, id);
      released := released + [(id, cache[id])];
      rest := rest - {id};
    }
  }

  /**
   * A manager: its optional parent (not owned), its search directories in
   * the order added, and its two caches keyed by identifier. `Ancestry` is
   * the manager and every manager up its parent chain.
   */
  class AssetManager {
    var parent: AssetManager?
    var searchDirs: seq<string>
    var loadedTextures: map<string, Texture>
    var loadedSounds: map<string, Sound>

    ghost var Ancestry: set<AssetManager>

    /** The parent chain is finite and has no cycle. */
    ghost predicate Valid()
      reads this, Ancestry
      decreases Ancestry
    {
      && this in Ancestry
      && (parent == null ==> Ancestry == {this})
      && (parent != null ==>
            && parent in Ancestry && this !in parent.Ancestry
            && Ancestry == {this} + parent.Ancestry
            && parent.Valid())
    }

    /** The texture side of this manager and its ancestors, the one asked first. */
    ghost function TextureLayers(): (layers: seq<Layer<Texture>>)
      reads this, Ancestry
      requires Valid()
      ensures layers != []
      decreases Ancestry
    {
      if parent == null then [Layer(searchDirs, loadedTextures)]
      else [Layer(searchDirs, loadedTextures)] + parent.TextureLayers()
    }

    /** The sound side of this manager and its ancestors, the one asked first. */
    ghost function SoundLayers(): (layers: seq<Layer<Sound>>)
      reads this, Ancestry
      requires Valid()
      ensures layers != []
      decreases Ancestry
    {
      if parent == null then [Layer(searchDirs, loadedSounds)]
      else [Layer(searchDirs, loadedSounds)] + parent.SoundLayers()
    }

    /** `AssetManager()`: no parent, no search directory, nothing loaded. */
    constructor Default()
      ensures Valid() && Ancestry == {this}
      ensures parent == null && searchDirs == [] && loadedTextures == map[] && loadedSounds == map[]
    {
      parent := null;
      searchDirs := [];
      loadedTextures := map[];
      loadedSounds := map[];
      Ancestry := {this};
    }

    /** `AssetManager(parent)`: stores the given parent, which stays owned by its creator. */
    constructor(p: AssetManager?)
      requires p != null ==> p.Valid()
      ensures Valid() && Ancestry == {this} + (if p == null then {} else p.Ancestry)
      ensures parent == p && searchDirs == [] && loadedTextures == map[] && loadedSounds == map[]
    {
      parent := p;
      searchDirs := [];
      loadedTextures := map[];
      loadedSounds := map[];
      Ancestry := {this} + (if p == null then {} else p.Ancestry);
    }

    /** `AddSearchDir(dir)`: appends `dir` after the directories already added. */
    method AddSearchDir(dir: string)
      requires Valid()
      modifies this`searchDirs
      ensures Valid()
      ensures searchDirs == old(searchDirs) + [dir]
    {
      searchDirs := searchDirs + [dir];
    }

    /** The candidate list for `id`, built as the source builds its `paths` vector. */
    method CandidatePaths(id: string) returns (paths: seq<string>)
      ensures paths == Candidates(id, searchDirs)
    {
      paths := [id];
      var i := 0;
      while i < |searchDirs|
        invariant 0 <= i <= |searchDirs|
        invariant paths == Candidates(id, searchDirs[..i])
      {
        assert searchDirs[..i + 1][..i] == searchDirs[..i];
        paths := paths + [searchDirs[i] + id];
        i := i + 1;
      }
      assert searchDirs[..i] == searchDirs;
    }

    /** Cache, then candidate paths, in this manager alone (the part of `GetTexture` after the parent missed). */
    method LoadTextureHere(disk: Disk, id: string) returns (r: Option<Texture>)
      modifies this`loadedTextures
      ensures (r, Layer(searchDirs, loadedTextures)) ==
              LoadLocal(Layer(searchDirs, old(loadedTextures)), disk.existing, disk.images, id)
    {
      if id in loadedTextures {
        return Some(loadedTextures[id]);
      }
      var paths := CandidatePaths(id);
      var k := 0;
      while k < |paths|
        invariant 0 <= k <= |paths|
        invariant forall j :: 0 <= j < k ==> !Loadable(paths[j], disk.existing, disk.images)
      {
        if paths[k] in disk.existing && paths[k] in disk.images {
          var texture := disk.images[paths[k]];
          loadedTextures := loadedTextures[id := texture];
          assert FirstLoadable(paths, disk.existing, disk.images) == k;
          return Some(texture);
        }
        k := k + 1;
      }
      return None;
    }

    /** Cache, then candidate paths, in this manager alone (the part of `GetSound` after the parent missed). */
    method LoadSoundHere(disk: Disk, id: string) returns (r: Option<Sound>)
      modifies this`loadedSounds
      ensures (r, Layer(searchDirs, loadedSounds)) ==
              LoadLocal(Layer(searchDirs, old(loadedSounds)), disk.existing, disk.sounds, id)
    {
      if id in loadedSounds {
        return Some(loadedSounds[id]);
      }
      var paths := CandidatePaths(id);
      var k := 0;
      while k < |paths|
        invariant 0 <= k <= |paths|
        invariant forall j :: 0 <= j < k ==> !Loadable(paths[j], disk.existing, disk.sounds)
      {
        if paths[k] in disk.existing && paths[k] in disk.sounds {
          var sound := disk.sounds[paths[k]];
          loadedSounds := loadedSounds[id := sound];
          assert FirstLoadable(paths, disk.existing, disk.sounds) == k;
          return Some(sound);
        }
        k := k + 1;
      }
      return None;
    }

    /** `GetTexture(id)`: parent chain, then cache, then the candidate paths in order. */
    method GetTexture(disk: Disk, id: string) returns (r: Option<Texture>)
      requires Valid()
      modifies Ancestry`loadedTextures
      ensures Valid()
      ensures (r, TextureLayers()) == Resolve(old(TextureLayers()), disk.existing, disk.images, id)
      decreases Ancestry
    {
      if parent == null {
        r := LoadTextureHere(disk, id);
      } else {
        ghost var before := TextureLayers();
        assert before[1..] == parent.TextureLayers();
        var parentRet := parent.GetTexture(disk, id);
        ghost var up := parent.TextureLayers();
        assert TextureLayers() == [Layer(searchDirs, loadedTextures)] + up;
        if parentRet.Some? {
          return parentRet;
        }
        r := LoadTextureHere(disk, id);
        assert parent.Valid() && parent.TextureLayers() == up;
      }
    }

    /** `GetSound(id)`: parent chain, then cache, then the candidate paths in order. */
    method GetSound(disk: Disk, id: string) returns (r: Option<Sound>)
      requires Valid()
      modifies Ancestry`loadedSounds
      ensures Valid()
      ensures (r, SoundLayers()) == Resolve(old(SoundLayers()), disk.existing, disk.sounds, id)
      decreases Ancestry
    {
      if parent == null {
        r := LoadSoundHere(disk, id);
      } else {
        ghost var before := SoundLayers();
        assert before[1..] == parent.SoundLayers();
        var parentRet := parent.GetSound(disk, id);
        ghost var up := parent.SoundLayers();
        assert SoundLayers() == [Layer(searchDirs, loadedSounds)] + up;
        if parentRet.Some? {
          return parentRet;
        }
        r := LoadSoundHere(disk, id);
        assert parent.Valid() && parent.SoundLayers() == up;
      }
    }

    /** `~AssetManager()`: unloads every cached texture, then every cached sound, one call per entry. */
    method Destroy() returns (textures: seq<(string, Texture)>, sounds: seq<(string, Sound)>)
      ensures Ids(textures) == loadedTextures.Keys && Ids(sounds) == loadedSounds.Keys
      ensures forall i :: 0 <= i < |textures| ==> textures[i].0 in loadedTextures && textures[i].1 == loadedTextures[textures[i].0]
      ensures forall i :: 0 <= i < |sounds| ==> sounds[i].0 in loadedSounds && sounds[i].1 == loadedSounds[sounds[i].0]
      ensures forall i, j :: 0 <= i < j < |textures| ==> textures[i].0 != textures[j].0
      ensures forall i, j :: 0 <= i < j < |sounds| ==> sounds[i].0 != sounds[j].0
    {
      textures := ReleaseAll(loadedTextures);
      sounds := ReleaseAll(loadedSounds);
    }
  }
}
