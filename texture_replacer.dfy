/** `TextureReplacer`: the older copy of `TextureReplaceManger`, with the
    same name normalisation, path table and LRU cache of image bytes; only
    `Init` differs. */
module TextureReplacer {
  import opened Wrappers
  import opened Text
  import opened Upserts
  import opened LruCache
  import DotNetPath
  import opened TextureReplaceManger

  class Replacer {
    /** `_initialized`. */
    var initialized: bool
    /** `_filePathCache`: file name to path. */
    var filePathCache: map<string, string>
    /** `_textureCache`: null before `Init` and after `Unload`. */
    var textureCache: LruCache?<string, Bytes>

    /** The cache is sound and caches only names that have a file. */
    ghost predicate Valid()
      reads this, textureCache
    {
      textureCache != null ==> textureCache.Valid() && textureCache.cache.Keys <= filePathCache.Keys
    }

    /** The static initial state. */
    constructor ()
      ensures Valid() && !initialized && filePathCache == map[] && textureCache == null
    {
      initialized := false;
      filePathCache := map[];
      textureCache := null;
    }

    /** `Init`, given the state of the texture directory, the
        `TextureCacheSize` setting and the scanned PNG files. Unlike
        `TextureReplaceManger.Init`, a missing directory stops `Init` even when
        it could be created, so only a directory that was already present gets
        as far as the scan. A second call does nothing; a cache size that is
        not positive makes the cache constructor throw before anything
        changes; otherwise a fresh cache is made and each file is set in the
        path table by its file name, later files overwriting earlier ones.
        The path table is not emptied first. */
    method Init(directory: TextureDirectory, cacheSize: int, files: seq<string>)
      requires Valid()
      modifies this
      ensures Valid()
      ensures old(initialized) || directory != Present || cacheSize <= 0 ==>
        initialized == old(initialized) && filePathCache == old(filePathCache)
        && textureCache == old(textureCache)
      ensures !old(initialized) && directory == Present && 0 < cacheSize ==>
        initialized && textureCache != null && fresh(textureCache)
        && textureCache.capacity == cacheSize && textureCache.cache == map[]
        && filePathCache == Upsert(old(filePathCache), KeyedBy(files, DotNetPath.GetFileName))
    {
      if initialized {
        return;
      }
      if directory != Present {
        return;
      }
      var c := LruCache<string, Bytes>.Create(cacheSize);
      if c == null {
        return;
      }
      textureCache := c;
      CachePaths(files);
      initialized := true;
    }

    /** The loop of `Init` that sets each file in the path table by its file
        name. */
    method CachePaths(files: seq<string>)
      modifies this`filePathCache
      ensures filePathCache == Upsert(old(filePathCache), KeyedBy(files, DotNetPath.GetFileName))
    {
      var i := 0;
      while i < |files|
        invariant 0 <= i <= |files|
        invariant filePathCache == Upsert(old(filePathCache), KeyedBy(files[..i], DotNetPath.GetFileName))
      {
        var fileName := DotNetPath.GetFileName(files[i]);
        KeyedBySnoc(files, i, DotNetPath.GetFileName);
        UpsertSnoc(old(filePathCache), KeyedBy(files[..i], DotNetPath.GetFileName), (fileName, files[i]));
        filePathCache := filePathCache[fileName := files[i]];
        i := i + 1;
      }
      assert files[..|files|] == files;
    }

    /** `Unload`: refused before `Init`; otherwise the texture cache is
        emptied and dropped. The path table stays. */
    method Unload()
      requires Valid()
      modifies this, textureCache
      ensures Valid() && filePathCache == old(filePathCache)
      ensures !old(initialized) ==> !initialized && textureCache == old(textureCache)
      ensures old(initialized) ==> !initialized && textureCache == null
    {
      if !initialized {
        return;
      }
      if textureCache != null {
        textureCache.Clear();
        textureCache := null;
      }
      initialized := false;
    }

    /** Whether the texture cache exists and holds the normalised name. */
    predicate Cached(filename: string)
      reads this, textureCache
    {
      textureCache != null && NormalizeName(filename) in textureCache.cache
    }

    /** `IsTextureExist`: a non-empty name whose normalised form has a file. */
    predicate IsTextureExist(filename: string)
      reads this
    {
      filename != [] && NormalizeName(filename) in filePathCache
    }

    /** `GetReplaceTexture`; `readFile` is what `File.ReadAllBytes` gives for
        a path (`None` when it throws), and a `None` result is `false` with
        `replaced = null`. An empty name finds nothing. A cached texture is
        returned without reading, as the most recently used; otherwise a name
        with a file is read, and what was read is cached; any other name
        finds nothing. */
    method GetReplaceTexture(filename: string, readFile: string -> Option<Bytes>) returns (replaced: Option<Bytes>)
      requires Valid()
      modifies textureCache
      ensures Valid()
      ensures replaced.Some? ==> IsTextureExist(filename)
      ensures filename == [] ==> replaced == None
      ensures filename == [] && textureCache != null ==>
        textureCache.cache == old(textureCache.cache) && textureCache.order == old(textureCache.order)
      ensures filename != [] && old(Cached(filename)) ==>
        replaced == Some(old(textureCache.cache)[NormalizeName(filename)])
        && textureCache.cache == old(textureCache.cache)
        && textureCache.order == Without(old(textureCache.order), NormalizeName(filename)) + [NormalizeName(filename)]
      ensures filename != [] && !old(Cached(filename)) ==> ReadResult(NormalizeName(filename), readFile, replaced)
      ensures filename != [] && !old(Cached(filename)) && textureCache != null ==>
        StoredIfRead(old(textureCache.cache), old(textureCache.order), textureCache.capacity, NormalizeName(filename),
                     replaced, textureCache.cache, textureCache.order)
    {
      if filename == [] {
        return None;
      }
      var name := NormalizeName(filename);
      if textureCache != null {
        var cached := textureCache.TryGet(name);
        if cached.Some? {
          return cached;
        }
      }
      replaced := ReadAndCache(name, readFile);
    }

    /** What the file branch of `GetReplaceTexture` gives for a normalised
        `name` the cache did not hold: nothing for a name without a file,
        otherwise what reading its file gives. */
    predicate ReadResult(name: string, readFile: string -> Option<Bytes>, replaced: Option<Bytes>)
      reads this
    {
      (name !in filePathCache ==> replaced == None)
      && (name in filePathCache ==> replaced == readFile(filePathCache[name]))
    }

    /** The file branch of `GetReplaceTexture`. */
    method ReadAndCache(name: string, readFile: string -> Option<Bytes>) returns (replaced: Option<Bytes>)
      requires Valid()
      modifies textureCache
      ensures Valid()
      ensures ReadResult(name, readFile, replaced)
      ensures textureCache != null ==>
        StoredIfRead(old(textureCache.cache), old(textureCache.order), textureCache.capacity, name,
                     replaced, textureCache.cache, textureCache.order)
    {
      if name !in filePathCache {
        return None;
      }
      var cachePath := filePathCache[name];
      replaced := readFile(cachePath);
      if replaced.Some? && textureCache != null {
        textureCache.Set(name, replaced.value);
      }
    }
  }

}
