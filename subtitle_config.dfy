/** The plugin's subtitle enumerations and the two selectors of
    `SubtitleConfig`. The plugin enumerations are C# enums, so a value is an
    integer that may lie outside the declared members; the declared members
    are the constants below. */
module SubtitleConfig {

  /** `SubtitleTypeEnum`. */
  const Base: int := 0
  const Yotogi: int := 1
  const Adv: int := 2
  const Lyric: int := 3

  /** `TextAnchorEnum`, in declaration order. */
  const UpperLeft: int := 0
  const UpperCenter: int := 1
  const UpperRight: int := 2
  const MiddleLeft: int := 3
  const MiddleCenter: int := 4
  const MiddleRight: int := 5
  const LowerLeft: int := 6
  const LowerCenter: int := 7
  const LowerRight: int := 8

  /** Unity's `TextAnchor`. */
  datatype TextAnchor =
    | TextUpperLeft | TextUpperCenter | TextUpperRight
    | TextMiddleLeft | TextMiddleCenter | TextMiddleRight
    | TextLowerLeft | TextLowerCenter | TextLowerRight

  /** The member name of a declared `TextAnchorEnum` value. */
  function AnchorEnumName(v: int): string
    requires 0 <= v < 9
  {
    ["UpperLeft", "UpperCenter", "UpperRight", "MiddleLeft", "MiddleCenter", "MiddleRight",
     "LowerLeft", "LowerCenter", "LowerRight"][v]
  }

  /** The member name of a `TextAnchor`. */
  function TextAnchorName(a: TextAnchor): string
  {
    match a
    case TextUpperLeft => "UpperLeft"
    case TextUpperCenter => "UpperCenter"
    case TextUpperRight => "UpperRight"
    case TextMiddleLeft => "MiddleLeft"
    case TextMiddleCenter => "MiddleCenter"
    case TextMiddleRight => "MiddleRight"
    case TextLowerLeft => "LowerLeft"
    case TextLowerCenter => "LowerCenter"
    case TextLowerRight => "LowerRight"
  }

  /** `ConvertTextAnchorEnum`: each declared anchor becomes the Unity
      anchor of the same name; any other value becomes the middle centre. */
  function ConvertTextAnchorEnum(v: int): (r: TextAnchor)
    ensures 0 <= v < 9 ==> TextAnchorName(r) == AnchorEnumName(v)
    ensures !(0 <= v < 9) ==> r == TextMiddleCenter
  {
    if v == UpperLeft then TextUpperLeft
    else if v == UpperCenter then TextUpperCenter
    else if v == UpperRight then TextUpperRight
    else if v == MiddleLeft then TextMiddleLeft
    else if v == MiddleCenter then TextMiddleCenter
    else if v == MiddleRight then TextMiddleRight
    else if v == LowerLeft then TextLowerLeft
    else if v == LowerCenter then TextLowerCenter
    else if v == LowerRight then TextLowerRight
    else TextMiddleCenter
  }

  /** No two declared anchors are mapped to the same Unity anchor. */
  lemma ConvertTextAnchorEnumInjective(v: int, w: int)
    requires 0 <= v < 9 && 0 <= w < 9
    requires ConvertTextAnchorEnum(v) == ConvertTextAnchorEnum(w)
    ensures v == w
  {
  }

  /** `GetSubtitleTypeConfig`: the setting of the given subtitle type, and
      `defaultValue` for any value that is not a declared type. Only the
      chosen setting is evaluated. */
  function GetSubtitleTypeConfig<T>(subtitleType: int, baseConfig: () -> T, yotogiConfig: () -> T,
                                    advConfig: () -> T, lyricConfig: () -> T, defaultValue: T): (r: T)
  {
    if subtitleType == Base then baseConfig()
    else if subtitleType == Yotogi then yotogiConfig()
    else if subtitleType == Adv then advConfig()
    else if subtitleType == Lyric then lyricConfig()
    else defaultValue
  }

  /** The selected setting is the one at the type's position among the
      four, and an undeclared type gets the default. */
  lemma SubtitleTypeConfigSelects<T>(subtitleType: int, baseConfig: () -> T, yotogiConfig: () -> T,
                                     advConfig: () -> T, lyricConfig: () -> T, defaultValue: T)
    ensures 0 <= subtitleType < 4 ==>
      GetSubtitleTypeConfig(subtitleType, baseConfig, yotogiConfig, advConfig, lyricConfig, defaultValue)
      == [baseConfig(), yotogiConfig(), advConfig(), lyricConfig()][subtitleType]
    ensures !(0 <= subtitleType < 4) ==>
      GetSubtitleTypeConfig(subtitleType, baseConfig, yotogiConfig, advConfig, lyricConfig, defaultValue)
      == defaultValue
  {
  }
}
