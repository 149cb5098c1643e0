/** One content card of a button: the channel picker, the message text with
    its 2000-character cap and the counter colouring. */
module ContentNode {
  import opened Wrappers
  import opened Tree
  import Text

  /** The most UTF-16 code units a message may hold. */
  const MaxChars: nat := 2000

  /** The channel picker reports a new channel: only `channelId` changes. */
  function ChannelChange(channelId: string): (p: ContentPatch)
    ensures p.channelId == Some(channelId) && p.text.None?
  {
    ContentPatch(Some(channelId), None)
  }

  /** The text area reports new text: it is passed on only when it fits in
      `MaxChars` code units; otherwise the edit is dropped. */
  function TextChange(text: string): (p: Option<ContentPatch>)
    ensures p.Some? <==> Text.Utf16Len(text) <= MaxChars
    ensures p.Some? ==> p.value.text == Some(text) && p.value.channelId.None?
  {
    if Text.Utf16Len(text) <= MaxChars then Some(ContentPatch(None, Some(text))) else None
  }

  /** The counter turns red above nine tenths of the cap. */
  predicate CounterWarning(c: Content) {
    Text.Utf16Len(c.text) * 10 > MaxChars * 9
  }

  /** The text area gets error styling above the cap. */
  predicate TextError(c: Content) {
    Text.Utf16Len(c.text) > MaxChars
  }

  /** An accepted text edit replaces the text and nothing else, and the
      content it yields never gets error styling. */
  lemma AcceptedTextEdit(c: Content, text: string)
    requires TextChange(text).Some?
    ensures var d := MergeContent(c, TextChange(text).value);
      && d.text == text
      && d.id == c.id && d.channelId == c.channelId && d.index == c.index && d.buttonId == c.buttonId
      && !TextError(d)
  {
  }

  /** A channel edit replaces the channel and nothing else. */
  lemma ChannelEditOnlyChangesChannel(c: Content, channelId: string)
    ensures var d := MergeContent(c, ChannelChange(channelId));
      && d.channelId == channelId
      && d.id == c.id && d.text == c.text && d.index == c.index && d.buttonId == c.buttonId
  {
  }

  /** Text over the cap is always also over the warning threshold, and the
      warning threshold is 1800 code units. */
  lemma ErrorImpliesWarning(c: Content)
    ensures TextError(c) ==> CounterWarning(c)
    ensures CounterWarning(c) <==> Text.Utf16Len(c.text) > 1800
  {
  }

  /** Starting from text within the cap, no run of text edits reaches error
      styling: rejected edits leave the content as it was. */
  lemma {:induction false} TextEditsNeverError(c: Content, texts: seq<string>)
    requires !TextError(c)
    ensures !TextError(ApplyTextEdits(c, texts))
    decreases |texts|
  {
    if |texts| > 0 {
      var p := TextChange(texts[0]);
      var next := if p.Some? then MergeContent(c, p.value) else c;
      TextEditsNeverError(next, texts[1..]);
    }
  }

  /** A run of text-area change events applied to one content. */
  function ApplyTextEdits(c: Content, texts: seq<string>): Content
    decreases |texts|
  {
    if |texts| == 0 then c
    else
      var p := TextChange(texts[0]);
      ApplyTextEdits(if p.Some? then MergeContent(c, p.value) else c, texts[1..])
  }
}
