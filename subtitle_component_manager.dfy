/** `SubtitleComponentManager`: the per-speaker subtitle ids and the
    registry of subtitle components by id. Components are objects; their
    Unity game objects, layout and rendering are not modelled, only the
    configuration each one holds. The configuration type is a parameter
    `C`. */
module SubtitleComponentManager {
  import opened Wrappers
  import opened Text

  /** The id of the subtitle shared by speakers without a name. */
  const DefaultSubtitleId: string := "Subtitle_JAT_DefaultSubtitle"

  /** What every per-speaker id starts with. */
  const SpeakerIdPrefix: string := "Subtitle_JAT_Subtitle_For_"

  /** The id made for `speakerName` while the counter is `counter`. */
  function SpeakerId(speakerName: string, counter: int): (r: string)
  {
    SpeakerIdPrefix + speakerName + "_" + IntToString(counter)
  }

  /** Two texts that each end in a separator, followed by runs free of it,
      can only be equal piece for piece. */
  lemma LastSeparator(x1: string, y1: string, x2: string, y2: string, sep: char)
    requires x1 != [] && x1[|x1| - 1] == sep && sep !in y1
    requires x2 != [] && x2[|x2| - 1] == sep && sep !in y2
    requires x1 + y1 == x2 + y2
    ensures x1 == x2 && y1 == y2
  {
    var s := x1 + y1;
    assert y1 == s[|x1|..] && y2 == s[|x2|..];
    assert x1 == s[..|x1|] && x2 == s[..|x2|];
  }

  /** A printed counter holds no `_`. */
  lemma NoSeparatorInNumber(n: int)
    ensures '_' !in IntToString(n)
  {
    IntToStringChars(n);
  }

  /** Per-speaker ids never collide: the id gives back both the speaker
      and the counter value, because the counter follows the last `_`. */
  lemma SpeakerIdInjective(a: string, i: int, b: string, j: int)
    requires SpeakerId(a, i) == SpeakerId(b, j)
    ensures a == b && i == j
  {
    NoSeparatorInNumber(i);
    NoSeparatorInNumber(j);
    var x1 := SpeakerIdPrefix + a + "_";
    var x2 := SpeakerIdPrefix + b + "_";
    LastSeparator(x1, IntToString(i), x2, IntToString(j), '_');
    IntToStringInjective(i, j);
    assert a == x1[|SpeakerIdPrefix|..|x1| - 1];
    assert b == x2[|SpeakerIdPrefix|..|x2| - 1];
  }

  /** The shared default id is never a per-speaker id. */
  lemma DefaultIdNotSpeakerId(speakerName: string, counter: int)
    ensures SpeakerId(speakerName, counter) != DefaultSubtitleId
  {
    var s := SpeakerId(speakerName, counter);
    assert s[13] == 'S';
    assert DefaultSubtitleId[13] == 'D';
  }

  /** A subtitle component, reduced to the configuration it applies. */
  class Subtitle<C> {
    var config: C

    /** `Initialize`: the given configuration. */
    constructor (config: C)
      ensures this.config == config
    {
      this.config := config;
    }

    /** `UpdateConfig` with a non-null configuration. */
    method UpdateConfig(config: C)
      modifies this
      ensures this.config == config
    {
      this.config := config;
    }
  }

  class Manager<C> {
    /** `Subtitles`: id to component. */
    var subtitles: map<string, Subtitle<C>>
    /** `SpeakerSubtitleIds`: speaker name to the id made for it. */
    var speakerSubtitleIds: map<string, string>
    /** `_subtitleIdCounter`. */
    var subtitleIdCounter: int
    /** The counter value each speaker's id was made with. */
    ghost var issued: map<string, int>

    /** Every speaker id was made from its speaker and a counter value
        already used, and no two speakers were given the same value. */
    ghost predicate Valid()
      reads this
    {
      0 <= subtitleIdCounter
      && issued.Keys == speakerSubtitleIds.Keys
      && (forall s :: s in speakerSubtitleIds ==>
            speakerSubtitleIds[s] == SpeakerId(s, issued[s]) && 0 <= issued[s] < subtitleIdCounter)
      && (forall s, t :: s in issued && t in issued && s != t ==> issued[s] != issued[t])
    }

    /** The static initial state. */
    constructor ()
      ensures Valid() && subtitles == map[] && speakerSubtitleIds == map[] && subtitleIdCounter == 0
    {
      subtitles := map[];
      speakerSubtitleIds := map[];
      subtitleIdCounter := 0;
      issued := map[];
    }

    /** `GetSpeakerSubtitleId`: a speaker without a name shares the default
        id; a known speaker gets its id again; a new speaker gets an id made
        from its name and the counter, which then advances. */
    method GetSpeakerSubtitleId(speakerName: string) returns (id: string)
      requires Valid()
      modifies this`speakerSubtitleIds, this`subtitleIdCounter, this`issued
      ensures Valid()
      ensures speakerName == [] ==>
        id == DefaultSubtitleId && speakerSubtitleIds == old(speakerSubtitleIds)
        && subtitleIdCounter == old(subtitleIdCounter)
      ensures speakerName != [] && speakerName in old(speakerSubtitleIds) ==>
        id == old(speakerSubtitleIds)[speakerName] && speakerSubtitleIds == old(speakerSubtitleIds)
        && subtitleIdCounter == old(subtitleIdCounter)
      ensures speakerName != [] && speakerName !in old(speakerSubtitleIds) ==>
        id == SpeakerId(speakerName, old(subtitleIdCounter))
        && speakerSubtitleIds == old(speakerSubtitleIds)[speakerName := id]
        && subtitleIdCounter == old(subtitleIdCounter) + 1
      ensures speakerName != [] ==> speakerName in speakerSubtitleIds && speakerSubtitleIds[speakerName] == id
    {
      if speakerName == [] {
        return DefaultSubtitleId;
      }
      if speakerName in speakerSubtitleIds {
        return speakerSubtitleIds[speakerName];
      }
      id := SpeakerId(speakerName, subtitleIdCounter);
      ghost var n := subtitleIdCounter;
      issued := issued[speakerName := n];
      subtitleIdCounter := subtitleIdCounter + 1;
      speakerSubtitleIds := speakerSubtitleIds[speakerName := id];
      forall s | s in speakerSubtitleIds
        ensures speakerSubtitleIds[s] == SpeakerId(s, issued[s]) && 0 <= issued[s] < subtitleIdCounter
      {
        if s != speakerName {
          assert s in old(speakerSubtitleIds) && issued[s] == old(issued)[s];
          assert speakerSubtitleIds[s] == old(speakerSubtitleIds)[s];
        }
      }
    }

    /** Distinct speakers hold distinct ids, and none holds the default
        id. */
    lemma DistinctSpeakersDistinctIds(s: string, t: string)
      requires Valid()
      requires s in speakerSubtitleIds && t in speakerSubtitleIds
      ensures speakerSubtitleIds[s] != DefaultSubtitleId
      ensures s != t ==> speakerSubtitleIds[s] != speakerSubtitleIds[t]
    {
      DefaultIdNotSpeakerId(s, issued[s]);
      if s != t && speakerSubtitleIds[s] == speakerSubtitleIds[t] {
        SpeakerIdInjective(s, issued[s], t, issued[t]);
      }
    }

    /** `CreateSubtitle`: a component registered under the id is destroyed
        and replaced by a new one, initialised with the given configuration
        or, for null, the current one. */
    method CreateSubtitle(id: string, config: Option<C>, currentConfig: C) returns (subtitle: Subtitle<C>)
      modifies this`subtitles
      ensures fresh(subtitle)
      ensures subtitle.config == if config.Some? then config.value else currentConfig
      ensures subtitles == old(subtitles)[id := subtitle]
    {
      if id in subtitles {
        subtitles := subtitles - {id};
      }
      subtitle := new Subtitle(if config.Some? then config.value else currentConfig);
      subtitles := subtitles[id := subtitle];
    }

    /** `GetSubtitle`: the registered component, or null. */
    function GetSubtitle(id: string): (r: Option<Subtitle<C>>)
      reads this
      ensures r.Some? <==> id in subtitles
      ensures r.Some? ==> r.value == subtitles[id]
    {
      if id in subtitles then Some(subtitles[id]) else None
    }

    /** `GetOrCreateSubtitle`: the registered component, given the new
        configuration when one is passed; otherwise a new registered
        component. */
    method GetOrCreateSubtitle(id: string, config: Option<C>, currentConfig: C) returns (subtitle: Subtitle<C>)
      modifies this`subtitles, if id in subtitles then {subtitles[id]} else {}
      ensures id in old(subtitles) ==>
        subtitle == old(subtitles)[id] && subtitles == old(subtitles)
        && subtitle.config == if config.Some? then config.value else old(subtitle.config)
      ensures id !in old(subtitles) ==>
        fresh(subtitle) && subtitles == old(subtitles)[id := subtitle]
        && subtitle.config == if config.Some? then config.value else currentConfig
    {
      var found := GetSubtitle(id);
      if found.None? {
        subtitle := CreateSubtitle(id, config, currentConfig);
      } else {
        subtitle := found.value;
        if config.Some? {
          subtitle.UpdateConfig(config.value);
        }
      }
    }

    /** `DestroySubtitle`: only that id leaves the registry. */
    method DestroySubtitle(id: string)
      modifies this`subtitles
      ensures subtitles == old(subtitles) - {id}
    {
      var found := GetSubtitle(id);
      if found.None? {
        return;
      }
      subtitles := subtitles - {id};
    }

    /** `DestroyAllSubtitles`: the registry is emptied; the speaker ids and
        the counter stay. */
    method DestroyAllSubtitles()
      modifies this`subtitles
      ensures subtitles == map[]
    {
      subtitles := map[];
    }
  }
}
