/** `UITranslateManager` of the `Translator` namespace: the older UI
    manager. Found terms are marked through the XUAT interop, loaded tables
    are merged into the term table, and loaded sprite textures are kept in an
    LRU cache. */
module UiTranslateManager {
  import opened Wrappers
  import opened Text
  import opened Upserts
  import opened XuatInterop
  import StringTool
  import DotNetPath
  import opened LruCache
  import Manger = UiTranslateManger

  /** A texture made from the image file at `path`. */
  datatype Texture = Texture(path: string)

  class Manager {
    /** `_initialized`. */
    var initialized: bool
    /** `_translations`: term to the `Translation` of its `TranslationData`. */
    var translations: map<string, string>
    /** `SpritePathCache`: sprite name to image path. */
    var spritePathCache: map<string, string>
    /** `_spriteCache`: null until the first `Init`. */
    var spriteCache: LruCache?<string, Texture>

    /** The texture cache is sound once it exists; before it exists no
        sprite has been scanned. */
    ghost predicate Valid()
      reads this, spriteCache
    {
      (spriteCache != null ==> spriteCache.Valid())
      && (spriteCache == null ==> spritePathCache == map[] && !initialized)
    }

    /** The static initial state. */
    constructor ()
      ensures Valid() && !initialized && translations == map[] && spritePathCache == map[]
      ensures spriteCache == null
    {
      initialized := false;
      translations := map[];
      spritePathCache := map[];
      spriteCache := null;
    }

    /** `LoadSpriteTextures`: `None` when the sprite directory is missing
        and cannot be created; otherwise the table is rebuilt from the
        scanned files, keyed by name without extension. */
    method LoadSpriteTextures(files: Option<seq<string>>)
      modifies this`spritePathCache
      ensures files.None? ==> spritePathCache == old(spritePathCache)
      ensures files.Some? ==>
        spritePathCache == Upsert(map[], KeyedBy(files.value, DotNetPath.GetFileNameWithoutExtension))
    {
      if files.None? {
        return;
      }
      var fs := files.value;
      spritePathCache := map[];
      var i := 0;
      while i < |fs|
        invariant 0 <= i <= |fs|
        invariant spritePathCache == Upsert(map[], KeyedBy(fs[..i], DotNetPath.GetFileNameWithoutExtension))
      {
        var fileName := DotNetPath.GetFileNameWithoutExtension(fs[i]);
        KeyedBySnoc(fs, i, DotNetPath.GetFileNameWithoutExtension);
        UpsertSnoc(map[], KeyedBy(fs[..i], DotNetPath.GetFileNameWithoutExtension), (fileName, fs[i]));
        spritePathCache := spritePathCache[fileName := fs[i]];
        i := i + 1;
      }
      assert fs[..|fs|] == fs;
    }

    /** `Init` with the `UICacheSize` setting: a second call does nothing.
        A size that is not positive makes the cache constructor throw, and
        `Init` stops there with nothing changed; otherwise a fresh empty
        cache is made, the sprites are scanned and the manager is
        initialised. */
    method Init(cacheSize: int, spriteFiles: Option<seq<string>>)
      requires Valid()
      modifies this
      ensures Valid() && translations == old(translations)
      ensures old(initialized) || cacheSize <= 0 ==>
        initialized == old(initialized) && spriteCache == old(spriteCache)
        && spritePathCache == old(spritePathCache)
      ensures !old(initialized) && 0 < cacheSize ==>
        initialized && spriteCache != null && fresh(spriteCache)
        && spriteCache.capacity == cacheSize && spriteCache.cache == map[]
        && (spriteFiles.None? ==> spritePathCache == old(spritePathCache))
        && (spriteFiles.Some? ==>
              spritePathCache == Upsert(map[], KeyedBy(spriteFiles.value, DotNetPath.GetFileNameWithoutExtension)))
    {
      if initialized {
        return;
      }
      var c := LruCache<string, Texture>.Create(cacheSize);
      if c == null {
        return;
      }
      spriteCache := c;
      LoadSpriteTextures(spriteFiles);
      initialized := true;
    }

    /** `Unload`: refused before `Init`; otherwise the term table, the
        texture cache and the sprite table are emptied and the manager is
        uninitialised. */
    method Unload()
      requires Valid()
      modifies this, spriteCache
      ensures Valid() && spriteCache == old(spriteCache)
      ensures !old(initialized) ==>
        !initialized && translations == old(translations) && spritePathCache == old(spritePathCache)
        && (spriteCache != null ==> spriteCache.cache == old(spriteCache.cache))
      ensures old(initialized) ==>
        !initialized && translations == map[] && spritePathCache == map[]
        && spriteCache != null && spriteCache.cache == map[]
    {
      if !initialized {
        return;
      }
      translations := map[];
      spriteCache.Clear();
      spritePathCache := map[];
      initialized := false;
    }

    /** `OnUiTextLoadComplete`: every loaded entry is set in the term
        table, so loaded terms take their loaded translation and all other
        terms keep theirs. */
    method OnUiTextLoadComplete(result: map<string, string>)
      modifies this`translations
      ensures translations == old(translations) + result
      ensures forall k :: k in translations <==> k in old(translations) || k in result
      ensures forall k :: k in result ==> translations[k] == result[k]
      ensures forall k :: k in old(translations) && k !in result ==> translations[k] == old(translations)[k]
    {
      var todo := result.Keys;
      while todo != {}
        invariant todo <= result.Keys
        invariant translations == old(translations) + (map k | k in result.Keys - todo :: result[k])
        decreases |todo|
      {
        var key :| key in todo;
        translations := translations[key := result[key]];
        todo := todo - {key};
      }
      assert (map k | k in result.Keys - todo :: result[k]) == result;
    }

    /** `HandleTextTermTranslation`: an empty term comes back as it is; a
        term found by the same rule as the other UI manager comes back marked
        (and its clean form recorded) by the interop; anything else becomes
        "". */
    method HandleTextTermTranslation(term: string, xuat: Interop) returns (r: string)
      requires xuat.Valid()
      modifies xuat
      ensures xuat.Valid() && xuat.marker == old(xuat.marker) && xuat.initialized == old(xuat.initialized)
      ensures var found := Manger.HandleTextTermTranslation(translations, term);
        && (term == [] ==> r == term)
        && (term != [] && found.None? ==> r == "")
        && (found.None? ==> xuat.translatedTexts == old(xuat.translatedTexts))
        && (found.Some? ==> r == MarkedText(found.value, xuat.marker, false))
        && (found.Some? ==>
              xuat.translatedTexts == if StringTool.IsNullOrWhiteSpace(found.value) then old(xuat.translatedTexts)
                                      else old(xuat.translatedTexts) + {CleanText(found.value, xuat.marker)})
    {
      if term == [] {
        return term;
      }
      if term in translations {
        r := xuat.MarkTranslated(translations[term], false);
        return;
      }
      var slashIndex := IndexOfChar(term, '/');
      if slashIndex > -1 {
        var newTerm := term[slashIndex + 1..];
        if newTerm in translations {
          r := xuat.MarkTranslated(translations[newTerm], false);
          return;
        }
      }
      return "";
    }

    /** `IsSpriteReplaceAvailable`: a non-empty name with a scanned image. */
    predicate IsSpriteReplaceAvailable(spriteName: string)
      reads this
    {
      spriteName != [] && spriteName in spritePathCache
    }

    /** `GetSpriteTexture`; `readFails` says whether reading the image file
        throws. The result of `LoadImage` is not checked, so bytes that do
        not decode still give a cached texture. Unavailable sprites give null (`None`) and touch
        nothing. A cached texture is returned, without reading the file, and
        becomes the most recently used. Otherwise the image at the sprite's
        path is loaded and cached, or, when that fails, null is returned and
        the cache is left as it was. */
    method GetSpriteTexture(spriteName: string, readFails: bool) returns (t: Option<Texture>)
      requires Valid()
      modifies spriteCache
      ensures Valid()
      ensures !IsSpriteReplaceAvailable(spriteName) ==>
        t == None
        && (spriteCache != null ==>
              spriteCache.cache == old(spriteCache.cache) && spriteCache.order == old(spriteCache.order))
      ensures IsSpriteReplaceAvailable(spriteName) ==>
        spriteCache != null
        && (spriteName in old(spriteCache.cache) ==>
              t == Some(old(spriteCache.cache)[spriteName]) && spriteCache.cache == old(spriteCache.cache)
              && spriteCache.order == Without(old(spriteCache.order), spriteName) + [spriteName])
        && (spriteName !in old(spriteCache.cache) && readFails ==>
              t == None && spriteCache.cache == old(spriteCache.cache)
              && spriteCache.order == old(spriteCache.order))
        && (spriteName !in old(spriteCache.cache) && !readFails ==>
              t == Some(Texture(spritePathCache[spriteName]))
              && SetResult(old(spriteCache.cache), old(spriteCache.order), spriteCache.capacity, spriteName, t.value,
                           spriteCache.cache, spriteCache.order))
    {
      if !IsSpriteReplaceAvailable(spriteName) {
        return None;
      }
      var cached := spriteCache.TryGet(spriteName);
      if cached.Some? {
        return cached;
      }
      if spriteName !in spritePathCache {
        return None;
      }
      var path := spritePathCache[spriteName];
      if readFails {
        return None;
      }
      var texture := Texture(path);
      spriteCache.Set(spriteName, texture);
      return Some(texture);
    }
  }
}
