/** The texture cache of graphics/imageManager.go: a map from file
    path to decoded texture that is filled on first use and never
    shrinks. Decoding a PNG file is a pure function `load` of the path
    here: `None` stands for any open or decode error. */
module Textures {
  import opened Common
  import opened Raster

  class TextureStore {
    /** The file loader: what `loadImage` returns for each path. */
    const load: string -> Option<Texture>
    /** The cached textures (`textureCache`). */
    var cache: map<string, Texture>
    /** Every path handed to the loader, in call order. */
    ghost var loads: seq<string>

    /** Every cached texture is what the loader gives for its path and
        was loaded once; a path whose load succeeded is never handed to
        the loader again. */
    ghost predicate Valid()
      reads this
    {
      && (forall p :: p in cache ==> load(p) == Some(cache[p]) && p in loads)
      && (forall i :: 0 <= i < |loads| && load(loads[i]).Some? ==> loads[i] in cache)
      && (forall i, j :: 0 <= i < j < |loads| && loads[i] == loads[j] ==> load(loads[i]).None?)
    }

    constructor(load: string -> Option<Texture>)
      ensures Valid()
      ensures this.load == load && cache == map[] && loads == []
    {
      this.load := load;
      cache := map[];
      loads := [];
    }

    /** `getCachedImage`: a hit returns the cached texture without
        calling the loader; a miss calls it, caches a success and
        leaves the cache alone on failure. Either way the result is
        what the loader gives for `path`. */
    method GetCachedImage(path: string) returns (r: Option<Texture>)
      requires Valid()
      modifies this
      ensures Valid()
      ensures r == load(path)
      ensures path in old(cache) ==> cache == old(cache) && loads == old(loads)
      ensures path !in old(cache) ==> loads == old(loads) + [path]
      ensures path !in old(cache) && r.Some? ==> cache == old(cache)[path := r.value]
      ensures path !in old(cache) && r.None? ==> cache == old(cache)
    {
      if path in cache {
        return Some(cache[path]);
      }
      r := load(path);
      loads := loads + [path];
      if r.Some? {
        cache := cache[path := r.value];
      }
    }
  }
}
