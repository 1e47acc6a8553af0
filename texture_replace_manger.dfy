/** `TextureReplaceManger`: replacement textures for game textures, found by
    file name in a table of the scanned PNG files, with the bytes of recently
    used ones kept in an LRU cache. */
module TextureReplaceManger {
  import opened Wrappers
  import opened Text
  import opened Upserts
  import opened LruCache
  import DotNetPath

  /** The bytes of an image file. */
  type Bytes = seq<bv8>

  /** What `Init` finds at the texture directory: present, missing and
      then created, or missing and impossible to create. */
  datatype TextureDirectory = Present | Created | CannotCreate

  /** The file name a game texture name is looked up under: a name ending
      in `.tex` has every `.tex` replaced by `.png`, and a name that then has
      no extension gets `.png` appended. The result always has an extension,
      and it never ends in `.tex`. */
  function NormalizeName(filename: string): (r: string)
    ensures DotNetPath.GetExtension(r) != []
    ensures !EndsWith(r, ".tex")
  {
    var renamed := Renamed(filename);
    RenamedFacts(filename);
    if DotNetPath.GetExtension(renamed) == [] then
      PngExtension(renamed);
      renamed + ".png"
    else renamed
  }

  /** The first step: `.tex` names have every `.tex` replaced by `.png`. */
  function Renamed(filename: string): string
  {
    if EndsWith(filename, ".tex") then Replace(filename, ".tex", ".png") else filename
  }

  /** A renamed `.tex` name is a `.png` name. */
  lemma RenamedFacts(filename: string)
    ensures EndsWith(filename, ".tex") ==>
      DotNetPath.GetExtension(Renamed(filename)) == ".png" && !EndsWith(Renamed(filename), ".tex")
    ensures !EndsWith(filename, ".tex") ==> Renamed(filename) == filename
  {
    if EndsWith(filename, ".tex") {
      var a := filename[..|filename| - 4];
      assert filename == a + ".tex";
      TexBecomesPng(a);
      var r := Renamed(filename);
      assert r[|r| - 1] == 'g';
    }
  }

  /** The last `.tex` of a name is always one of those replaced, since two
      occurrences of `.tex` cannot overlap. */
  lemma {:induction false} ReplaceTexSuffix(a: string)
    ensures Replace(a + ".tex", ".tex", ".png") == Replace(a, ".tex", ".png") + ".png"
    decreases |a|
  {
    var s := a + ".tex";
    if a == [] {
      assert s == ".tex" && s[4..] == [];
    } else if |a| < 4 {
      assert s[..4] != ".tex" by {
        assert s[|a|] == '.' && s[..4][|a|] == s[|a|];
      }
      assert s[1..] == a[1..] + ".tex";
      ReplaceTexSuffix(a[1..]);
      assert [a[0]] + a[1..] == a;
    } else {
      assert s[..4] == a[..4];
      if a[..4] == ".tex" {
        assert s[4..] == a[4..] + ".tex";
        ReplaceTexSuffix(a[4..]);
      } else {
        assert s[1..] == a[1..] + ".tex";
        ReplaceTexSuffix(a[1..]);
      }
    }
  }

  /** A `.tex` name becomes a `.png` name. */
  lemma TexBecomesPng(a: string)
    ensures Replace(a + ".tex", ".tex", ".png") == Replace(a, ".tex", ".png") + ".png"
    ensures EndsWith(Replace(a + ".tex", ".tex", ".png"), ".png")
    ensures DotNetPath.GetExtension(Replace(a + ".tex", ".tex", ".png")) == ".png"
  {
    ReplaceTexSuffix(a);
    PngExtension(Replace(a, ".tex", ".png"));
  }

  /** Appending `.png` gives the extension `.png`. */
  lemma PngExtension(a: string)
    ensures DotNetPath.GetExtension(a + ".png") == ".png"
    ensures !EndsWith(a + ".png", ".tex")
  {
    var s := a + ".png";
    assert EndsWith(s, ".png") by {
      assert s[|s| - 4..] == ".png";
    }
    DotNetPath.ExtensionOfSuffix(s, ".png");
    assert s[|s| - 1] == 'g';
  }

  /** `a.tex` is looked up as `a.png`, with any `.tex` inside `a` replaced
      too. */
  lemma TexNameLookedUpAsPng(a: string)
    ensures NormalizeName(a + ".tex") == Replace(a, ".tex", ".png") + ".png"
  {
    TexBecomesPng(a);
    var f := a + ".tex";
    assert EndsWith(f, ".tex") by {
      assert f[|f| - 4..] == ".tex";
    }
  }

  /** A name without extension is looked up as a `.png`. */
  lemma BareNameLookedUpAsPng(f: string)
    requires !EndsWith(f, ".tex") && DotNetPath.GetExtension(f) == []
    ensures NormalizeName(f) == f + ".png"
  {
  }

  /** A name with another extension, `.png` included, is looked up as it is. */
  lemma OtherNamesUnchanged(f: string)
    requires !EndsWith(f, ".tex") && DotNetPath.GetExtension(f) != []
    ensures NormalizeName(f) == f
  {
  }

  /** Normalising twice is normalising once. */
  lemma NormalizeNameIdempotent(f: string)
    ensures NormalizeName(NormalizeName(f)) == NormalizeName(f)
  {
    OtherNamesUnchanged(NormalizeName(f));
  }

  class Manager {
    /** `_initialized`. */
    var initialized: bool
    /** `FilePathCache`: file name to path. */
    var filePathCache: map<string, string>
    /** `_textureCache`: null before `Init` and after `Unload`. */
    var textureCache: LruCache?<string, Bytes>

    /** The cache is sound and caches only names that have a file. */
    ghost predicate Valid()
      reads this, textureCache
    {
      textureCache != null ==> textureCache.Valid() && textureCache.cache.Keys <= filePathCache.Keys
    }

    /** The static initial state. */
    constructor ()
      ensures Valid() && !initialized && filePathCache == map[] && textureCache == null
    {
      initialized := false;
      filePathCache := map[];
      textureCache := null;
    }

    /** `Init`, given the state of the texture directory, the
        `TextureCacheSize` setting and the scanned PNG files: a second call
        does nothing, nor does a directory that cannot be created; a cache
        size that is not positive makes the cache constructor throw before
        anything changes; otherwise a fresh cache is made and each file is set
        in the path table by its file name, later files overwriting earlier
        ones. The path table is not emptied first. */
    method Init(directory: TextureDirectory, cacheSize: int, files: seq<string>)
      requires Valid()
      modifies this
      ensures Valid()
      ensures old(initialized) || directory == CannotCreate || cacheSize <= 0 ==>
        initialized == old(initialized) && filePathCache == old(filePathCache)
        && textureCache == old(textureCache)
      ensures !old(initialized) && directory != CannotCreate && 0 < cacheSize ==>
        initialized && textureCache != null && fresh(textureCache)
        && textureCache.capacity == cacheSize && textureCache.cache == map[]
        && filePathCache == Upsert(old(filePathCache), KeyedBy(files, DotNetPath.GetFileName))
    {
      if initialized {
        return;
      }
      if directory == CannotCreate {
        return;
      }
      var c := LruCache<string, Bytes>.Create(cacheSize);
      if c == null {
        return;
      }
      textureCache := c;
      CachePaths(files);
      initialized := true;
    }

    /** The loop of `Init` that sets each file in the path table by its file
        name. */
    method CachePaths(files: seq<string>)
      modifies this`filePathCache
      ensures filePathCache == Upsert(old(filePathCache), KeyedBy(files, DotNetPath.GetFileName))
    {
      var i := 0;
      while i < |files|
        invariant 0 <= i <= |files|
        invariant filePathCache == Upsert(old(filePathCache), KeyedBy(files[..i], DotNetPath.GetFileName))
      {
        var fileName := DotNetPath.GetFileName(files[i]);
        KeyedBySnoc(files, i, DotNetPath.GetFileName);
        UpsertSnoc(old(filePathCache), KeyedBy(files[..i], DotNetPath.GetFileName), (fileName, files[i]));
        filePathCache := filePathCache[fileName := files[i]];
        i := i + 1;
      }
      assert files[..|files|] == files;
    }

    /** `Unload`: refused before `Init`; otherwise the texture cache is
        emptied and dropped. The path table stays. */
    method Unload()
      requires Valid()
      modifies this, textureCache
      ensures Valid() && filePathCache == old(filePathCache)
      ensures !old(initialized) ==> !initialized && textureCache == old(textureCache)
      ensures old(initialized) ==> !initialized && textureCache == null
    {
      if !initialized {
        return;
      }
      if textureCache != null {
        textureCache.Clear();
        textureCache := null;
      }
      initialized := false;
    }

    /** Whether the texture cache exists and holds the normalised name. */
    predicate Cached(filename: string)
      reads this, textureCache
    {
      textureCache != null && NormalizeName(filename) in textureCache.cache
    }

    /** `IsTextureExist`: a non-empty name whose normalised form has a file. */
    predicate IsTextureExist(filename: string)
      reads this
    {
      filename != [] && NormalizeName(filename) in filePathCache
    }

    /** `GetReplaceTexture`; `readFile` is what `File.ReadAllBytes` gives for
        a path (`None` when it throws), and a `None` result is `false` with
        `replaced = null`. An empty name finds nothing. A cached texture is
        returned without reading, as the most recently used; otherwise a name
        with a file is read, and what was read is cached; any other name
        finds nothing. */
    method GetReplaceTexture(filename: string, readFile: string -> Option<Bytes>) returns (replaced: Option<Bytes>)
      requires Valid()
      modifies textureCache
      ensures Valid()
      ensures replaced.Some? ==> IsTextureExist(filename)
      ensures filename == [] ==> replaced == None
      ensures filename == [] && textureCache != null ==>
        textureCache.cache == old(textureCache.cache) && textureCache.order == old(textureCache.order)
      ensures filename != [] && old(Cached(filename)) ==>
        replaced == Some(old(textureCache.cache)[NormalizeName(filename)])
        && textureCache.cache == old(textureCache.cache)
        && textureCache.order == Without(old(textureCache.order), NormalizeName(filename)) + [NormalizeName(filename)]
      ensures filename != [] && !old(Cached(filename)) ==> ReadResult(NormalizeName(filename), readFile, replaced)
      ensures filename != [] && !old(Cached(filename)) && textureCache != null ==>
        StoredIfRead(old(textureCache.cache), old(textureCache.order), textureCache.capacity, NormalizeName(filename),
                     replaced, textureCache.cache, textureCache.order)
    {
      if filename == [] {
        return None;
      }
      var name := NormalizeName(filename);
      if textureCache != null {
        var cached := textureCache.TryGet(name);
        if cached.Some? {
          return cached;
        }
      }
      replaced := ReadAndCache(name, readFile);
    }

    /** What the file branch of `GetReplaceTexture` gives for a normalised
        `name` the cache did not hold: nothing for a name without a file,
        otherwise what reading its file gives. */
    predicate ReadResult(name: string, readFile: string -> Option<Bytes>, replaced: Option<Bytes>)
      reads this
    {
      (name !in filePathCache ==> replaced == None)
      && (name in filePathCache ==> replaced == readFile(filePathCache[name]))
    }

    /** The file branch of `GetReplaceTexture`. */
    method ReadAndCache(name: string, readFile: string -> Option<Bytes>) returns (replaced: Option<Bytes>)
      requires Valid()
      modifies textureCache
      ensures Valid()
      ensures ReadResult(name, readFile, replaced)
      ensures textureCache != null ==>
        StoredIfRead(old(textureCache.cache), old(textureCache.order), textureCache.capacity, name,
                     replaced, textureCache.cache, textureCache.order)
    {
      if name !in filePathCache {
        return None;
      }
      var cachePath := filePathCache[name];
      replaced := readFile(cachePath);
      if replaced.Some? && textureCache != null {
        textureCache.Set(name, replaced.value);
      }
    }
  }

  /** After `Init`, a name is in the path table exactly when it was there
      before or some scanned file has it as its file name, and a scanned
      name leads to the last file that has it. */
  lemma PathTableAfterInit(m: map<string, string>, files: seq<string>, name: string)
    ensures name in Upsert(m, KeyedBy(files, DotNetPath.GetFileName))
      <==> name in m || exists i :: 0 <= i < |files| && DotNetPath.GetFileName(files[i]) == name
    ensures forall i :: (0 <= i < |files| && DotNetPath.GetFileName(files[i]) == name
                         && (forall j :: i < j < |files| ==> DotNetPath.GetFileName(files[j]) != name))
                         ==> Upsert(m, KeyedBy(files, DotNetPath.GetFileName))[name] == files[i]
  {
    KeyedLookup(m, files, DotNetPath.GetFileName, name);
  }
}
