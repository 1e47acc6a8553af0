/** `SubtitleManager` of the `Translator` namespace: the voice-id to text
    map filled by the voice patches, the current speaker, voice id and
    subtitle type, and the coroutine registered for each maid. Maids are a
    type parameter `M` compared by identity; a null maid or voice id is
    `None`. Harmony patches, coroutines and scene events are not modelled;
    the id a launched coroutine gets is a parameter. */
module SubtitleManager {
  import opened Wrappers

  /** `string.IsNullOrEmpty` of a nullable string. */
  predicate IsNullOrEmpty(s: Option<string>)
  {
    s.None? || s.value == []
  }

  class Manager<M(==)> {
    /** `_initialized`. */
    var initialized: bool
    /** `MaidMonitorCoroutineIds`: maid to the id of its monitoring
        coroutine. */
    var maidMonitorCoroutineIds: map<M, string>
    /** `VoiceIdToTextMap`. */
    var voiceIdToTextMap: map<string, string>
    /** `CurrentSpeaker`. */
    var currentSpeaker: Option<M>
    /** `CurrentVoiceId`. */
    var currentVoiceId: Option<string>
    /** `SubtitleType`, a `SubtitleTypeEnum` value. */
    var subtitleType: int

    /** The static initial state. */
    constructor ()
      ensures !initialized && maidMonitorCoroutineIds == map[] && voiceIdToTextMap == map[]
      ensures currentSpeaker == None && currentVoiceId == None && subtitleType == 0
    {
      initialized := false;
      maidMonitorCoroutineIds := map[];
      voiceIdToTextMap := map[];
      currentSpeaker := None;
      currentVoiceId := None;
      subtitleType := 0;
    }

    /** `Init`: a second call does nothing. */
    method Init()
      modifies this`initialized
      ensures initialized
    {
      if initialized {
        return;
      }
      initialized := true;
    }

    /** `Unload`: refused before `Init`; otherwise every resource is
        cleaned and the manager is uninitialised. */
    method Unload()
      modifies this`initialized, this`maidMonitorCoroutineIds, this`voiceIdToTextMap,
               this`currentSpeaker, this`currentVoiceId
      ensures !initialized
      ensures !old(initialized) ==>
        maidMonitorCoroutineIds == old(maidMonitorCoroutineIds) && voiceIdToTextMap == old(voiceIdToTextMap)
        && currentSpeaker == old(currentSpeaker) && currentVoiceId == old(currentVoiceId)
      ensures old(initialized) ==> Cleaned()
    {
      if !initialized {
        return;
      }
      CleanResources();
      initialized := false;
    }

    /** No coroutine registered, no voice text, no current speaker or
        voice. */
    predicate Cleaned()
      reads this
    {
      maidMonitorCoroutineIds == map[] && voiceIdToTextMap == map[]
      && currentSpeaker == None && currentVoiceId == None
    }

    /** `OnSceneChange`. */
    method OnSceneChange()
      modifies this`maidMonitorCoroutineIds, this`voiceIdToTextMap, this`currentSpeaker, this`currentVoiceId
      ensures Cleaned()
    {
      CleanResources();
    }

    /** `CleanResources`: every maid coroutine is stopped and forgotten,
        the voice map emptied and the current speaker and voice id nulled;
        the subtitle type stays. */
    method CleanResources()
      modifies this`maidMonitorCoroutineIds, this`voiceIdToTextMap, this`currentSpeaker, this`currentVoiceId
      ensures Cleaned()
    {
      CleanupAllMaidMonitorCoroutines();
      voiceIdToTextMap := map[];
      currentSpeaker := None;
      currentVoiceId := None;
    }

    /** `CleanupAllMaidMonitorCoroutines`. */
    method CleanupAllMaidMonitorCoroutines()
      modifies this`maidMonitorCoroutineIds
      ensures maidMonitorCoroutineIds == map[]
    {
      if |maidMonitorCoroutineIds| > 0 {
        maidMonitorCoroutineIds := map[];
      }
    }

    /** The maid has a coroutine registered under a non-empty id. */
    predicate IsMonitored(maid: M)
      reads this
    {
      maid in maidMonitorCoroutineIds && maidMonitorCoroutineIds[maid] != []
    }

    /** `StartMaidMonitoringCoroutine`; `isStreamingPart` is whether the
        Maid Cafe streaming part is running, and `launchedId` the id the
        launched coroutine would get. A null maid is ignored. During the
        streaming part the maid is stopped instead. A maid already monitored
        keeps its coroutine; any other maid is registered under the new
        id. */
    method StartMaidMonitoringCoroutine(maid: Option<M>, isStreamingPart: bool, launchedId: string)
      modifies this`maidMonitorCoroutineIds
      ensures maid.None? ==> maidMonitorCoroutineIds == old(maidMonitorCoroutineIds)
      ensures maid.Some? && isStreamingPart ==>
        maidMonitorCoroutineIds == old(maidMonitorCoroutineIds) - {maid.value}
      ensures maid.Some? && !isStreamingPart && old(IsMonitored(maid.value)) ==>
        maidMonitorCoroutineIds == old(maidMonitorCoroutineIds)
      ensures maid.Some? && !isStreamingPart && !old(IsMonitored(maid.value)) ==>
        maidMonitorCoroutineIds == old(maidMonitorCoroutineIds)[maid.value := launchedId]
    {
      if maid.None? {
        return;
      }
      if isStreamingPart {
        StopMaidMonitoringCoroutine(maid);
        return;
      }
      if maid.value in maidMonitorCoroutineIds && maidMonitorCoroutineIds[maid.value] != [] {
        return;
      }
      var coroutineId := launchedId;
      maidMonitorCoroutineIds := maidMonitorCoroutineIds[maid.value := coroutineId];
    }

    /** `StopMaidMonitoringCoroutine`: the maid's entry goes; a null or
        unregistered maid is ignored. */
    method StopMaidMonitoringCoroutine(maid: Option<M>)
      modifies this`maidMonitorCoroutineIds
      ensures maid.None? ==> maidMonitorCoroutineIds == old(maidMonitorCoroutineIds)
      ensures maid.Some? ==> maidMonitorCoroutineIds == old(maidMonitorCoroutineIds) - {maid.value}
    {
      if maid.None? || maid.value !in maidMonitorCoroutineIds {
        return;
      }
      maidMonitorCoroutineIds := maidMonitorCoroutineIds - {maid.value};
    }

    /** `SetVoiceTextMapping(voiceId, text, callBy)`: ignored when either
        is null or empty; otherwise the voice id maps to the text. */
    method SetVoiceTextMapping(voiceId: Option<string>, text: Option<string>)
      modifies this`voiceIdToTextMap
      ensures IsNullOrEmpty(voiceId) || IsNullOrEmpty(text) ==> voiceIdToTextMap == old(voiceIdToTextMap)
      ensures !IsNullOrEmpty(voiceId) && !IsNullOrEmpty(text) ==>
        voiceIdToTextMap == old(voiceIdToTextMap)[voiceId.value := text.value]
    {
      if IsNullOrEmpty(voiceId) || IsNullOrEmpty(text) {
        return;
      }
      voiceIdToTextMap := voiceIdToTextMap[voiceId.value := text.value];
    }

    /** `SetVoiceTextMapping(text, callBy)`: the same, keyed by the current
        voice id. */
    method SetVoiceTextMappingForCurrentVoice(text: Option<string>)
      modifies this`voiceIdToTextMap
      ensures IsNullOrEmpty(currentVoiceId) || IsNullOrEmpty(text) ==> voiceIdToTextMap == old(voiceIdToTextMap)
      ensures !IsNullOrEmpty(currentVoiceId) && !IsNullOrEmpty(text) ==>
        voiceIdToTextMap == old(voiceIdToTextMap)[currentVoiceId.value := text.value]
    {
      if IsNullOrEmpty(currentVoiceId) || IsNullOrEmpty(text) {
        return;
      }
      voiceIdToTextMap := voiceIdToTextMap[currentVoiceId.value := text.value];
    }

    /** `SetCurrentVoiceId`. */
    method SetCurrentVoiceId(voiceId: Option<string>)
      modifies this`currentVoiceId
      ensures currentVoiceId == voiceId
    {
      currentVoiceId := voiceId;
    }

    /** `SetCurrentSpeaker`. */
    method SetCurrentSpeaker(speakerMaid: Option<M>)
      modifies this`currentSpeaker
      ensures currentSpeaker == speakerMaid
    {
      currentSpeaker := speakerMaid;
    }

    /** `SetSubtitleType`. */
    method SetSubtitleType(subtitleType: int)
      modifies this`subtitleType
      ensures this.subtitleType == subtitleType
    {
      this.subtitleType := subtitleType;
    }
  }
}
