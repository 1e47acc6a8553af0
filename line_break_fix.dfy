/** `MaidCafeDlcLineBreakCommentFix`: replaces the game's comment line
    breaking by a split after the first 20 characters, so that a translated
    comment of any length can be shown. */
module MaidCafeDlcLineBreakCommentFix {
  import opened Text

  /** Where the first line ends. */
  const SplitLength: nat := 20

  /** What a Harmony prefix does: the text it gives the comment label, and
      whether the game's own method still runs. */
  datatype PrefixOutcome = PrefixOutcome(commentText: string, runOriginal: bool)

  function Min(a: int, b: int): int
  {
    if a <= b then a else b
  }

  /** `LineBreakCommentPrefix`; null and empty text both clear the label. */
  function LineBreakCommentPrefix(text: string): (r: PrefixOutcome)
    ensures !r.runOriginal
    ensures text == [] ==> r.commentText == []
  {
    if text == [] then PrefixOutcome([], false)
    else
      var splitIndex := Min(SplitLength, |text|);
      var modifiedText := text[..splitIndex];
      var modifiedText' := if splitIndex < |text| then modifiedText + "\n" + text[splitIndex..]
                           else modifiedText;
      PrefixOutcome(modifiedText', false)
  }

  /** `SuperChatLineBreakCommentPrefix` delegates to the same prefix. */
  function SuperChatLineBreakCommentPrefix(text: string): (r: PrefixOutcome)
    ensures r == LineBreakCommentPrefix(text)
  {
    LineBreakCommentPrefix(text)
  }

  /** A comment of at most 20 characters is shown unchanged. */
  lemma ShortCommentUnchanged(text: string)
    requires |text| <= SplitLength
    ensures LineBreakCommentPrefix(text).commentText == text
  {
  }

  /** A longer comment gets exactly one extra character, a line feed after
      its 20th character, and removing it gives the comment back. */
  lemma LongCommentSplit(text: string)
    requires |text| > SplitLength
    ensures var r := LineBreakCommentPrefix(text).commentText;
      |r| == |text| + 1 && r[SplitLength] == '\n'
      && r[..SplitLength] + r[SplitLength + 1..] == text
  {
    var r := LineBreakCommentPrefix(text).commentText;
    assert r[..SplitLength] == text[..SplitLength];
    assert r[SplitLength + 1..] == text[SplitLength..];
    assert text == text[..SplitLength] + text[SplitLength..];
  }

  /** For a comment without line feeds, the first line of what is shown is
      the whole comment when it is short, else its first 20 characters. */
  lemma FirstLineLength(text: string)
    requires '\n' !in text
    ensures var r := LineBreakCommentPrefix(text).commentText;
      IndexOfChar(r, '\n') == if |text| <= SplitLength then -1 else SplitLength
  {
    var r := LineBreakCommentPrefix(text).commentText;
    if |text| > SplitLength {
      LongCommentSplit(text);
      assert r[..SplitLength] == text[..SplitLength];
      assert '\n' !in r[..SplitLength];
    }
  }
}
