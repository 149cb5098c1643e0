/** The name input shared by the group and button headers: the character
    filter with its 10-character cap, the IME-composition bypass, and the
    save/cancel editing cycle. */
module NameField {
  import Seqs

  const MaxNameLength: nat := 10
  const InvalidNameMessage := "공백, 특수문자는 사용할 수 없습니다. (최대 10자)"

  /** The class `[a-zA-Z0-9ㄱ-ㅎ가-힣ㅏ-ㅣ_]`. */
  predicate IsAllowed(c: char) {
    || ('a' <= c <= 'z') || ('A' <= c <= 'Z') || ('0' <= c <= '9')
    || ('\U{3131}' <= c <= '\U{314E}')   // ㄱ-ㅎ
    || ('\U{AC00}' <= c <= '\U{D7A3}')   // 가-힣
    || ('\U{314F}' <= c <= '\U{3163}')   // ㅏ-ㅣ
    || c == '_'
  }

  predicate IsValidName(s: string) {
    |s| <= MaxNameLength && forall i :: 0 <= i < |s| ==> IsAllowed(s[i])
  }

  /** `raw.replace(/[^...]/g, "").slice(0, 10)`. */
  function Sanitize(raw: string): (r: string)
    ensures IsValidName(r)
    ensures |r| == if |Seqs.Filter(IsAllowed, raw)| <= MaxNameLength then |Seqs.Filter(IsAllowed, raw)| else MaxNameLength
    ensures r == Seqs.Filter(IsAllowed, raw)[..|r|]
  {
    var kept := Seqs.Filter(IsAllowed, raw);
    if |kept| <= MaxNameLength then kept else kept[..MaxNameLength]
  }

  /** The sanitised name is the input with characters deleted, order kept. */
  lemma SanitizeIsSubsequence(raw: string)
    ensures Seqs.IsSubsequence(Sanitize(raw), raw)
  {
    var kept := Seqs.Filter(IsAllowed, raw);
    Seqs.FilterIsSubsequence(IsAllowed, raw);
    PrefixIsSubsequence(Sanitize(raw), kept, raw);
  }

  lemma {:induction false} PrefixIsSubsequence(p: string, s: string, t: string)
    requires |p| <= |s| && p == s[..|p|]
    requires Seqs.IsSubsequence(s, t)
    ensures Seqs.IsSubsequence(p, t)
    decreases |t|
  {
    if |p| > 0 {
      if s[0] == t[0] && Seqs.IsSubsequence(s[1..], t[1..]) {
        PrefixIsSubsequence(p[1..], s[1..], t[1..]);
      } else {
        PrefixIsSubsequence(p, s, t[1..]);
      }
    }
  }

  /** A valid name passes through unchanged, and only a valid name does. */
  lemma SanitizeIdentityIffValid(raw: string)
    ensures Sanitize(raw) == raw <==> IsValidName(raw)
  {
    if IsValidName(raw) {
      Seqs.FilterKeepsAll(IsAllowed, raw);
    }
  }

  /** Sanitising twice is sanitising once. */
  lemma SanitizeIdempotent(raw: string)
    ensures Sanitize(Sanitize(raw)) == Sanitize(raw)
  {
    SanitizeIdentityIffValid(Sanitize(raw));
  }

  /** The worked example: space and `#` are stripped, the Hangul syllable kept. */
  lemma SanitizeExample()
    ensures Sanitize("a b#c각") == "abc각"
  {
    StripExample();
  }

  lemma StripExample()
    ensures Seqs.Filter(IsAllowed, "a b#c각") == "abc각"
  {
    assert !IsAllowed(' ') && !IsAllowed('#') && IsAllowed('각');
    var e: string := [];
    var s5 := ['각'] + e;
    var s4 := ['c'] + s5;
    var s3 := ['#'] + s4;
    var s2 := ['b'] + s3;
    var s1 := [' '] + s2;
    Seqs.FilterCons(IsAllowed, '각', e);
    Seqs.FilterCons(IsAllowed, 'c', s5);
    Seqs.FilterCons(IsAllowed, '#', s4);
    Seqs.FilterCons(IsAllowed, 'b', s3);
    Seqs.FilterCons(IsAllowed, ' ', s2);
    Seqs.FilterCons(IsAllowed, 'a', s1);
    assert ['a'] + s1 == "a b#c각";
  }

  /** The editing state a header keeps for its name input. */
  datatype NameEditor = NameEditor(value: string, error: string, composing: bool, editing: bool)

  /** `useState(data.name)` and friends on mount. */
  function Initial(dataName: string): (e: NameEditor)
    ensures e.value == dataName && e.error == "" && !e.composing && !e.editing
  {
    NameEditor(dataName, "", false, false)
  }

  /** The input's change handler. While an IME composition is open the raw
      text is stored as typed; otherwise it is sanitised and the error
      message is set exactly when sanitising altered the input. */
  function Input(e: NameEditor, raw: string): (r: NameEditor)
    ensures r.composing == e.composing && r.editing == e.editing
    ensures e.composing ==> r.value == raw && r.error == e.error
    ensures !e.composing ==> r.value == Sanitize(raw) && IsValidName(r.value)
    ensures !e.composing ==> (r.error == InvalidNameMessage <==> Sanitize(raw) != raw)
    ensures !e.composing ==> (r.error == "" <==> Sanitize(raw) == raw)
  {
    if e.composing then e.(value := raw)
    else
      var s := Sanitize(raw);
      e.(value := s, error := if s != raw then InvalidNameMessage else "")
  }

  function CompositionStart(e: NameEditor): (r: NameEditor)
    ensures r.composing && r.value == e.value && r.error == e.error && r.editing == e.editing
  {
    e.(composing := true)
  }

  /** Composition end lowers the flag and re-runs the change handler. The
      handler it calls was created in the render that saw the composition
      open, so it still reads the old flag: after a composition the typed
      text is stored as it is, and only a run outside a composition
      sanitises. */
  function CompositionEnd(e: NameEditor, raw: string): (r: NameEditor)
    ensures !r.composing && r.editing == e.editing
    ensures e.composing ==> r.value == raw && r.error == e.error
    ensures !e.composing ==> r.value == Sanitize(raw) && IsValidName(r.value)
    ensures !e.composing ==> (r.error == "" <==> IsValidName(raw))
  {
    SanitizeIdentityIffValid(raw);
    Input(e, raw).(composing := false)
  }

  /** Eleven Hangul syllables: one over the cap. */
  const OverlongName := "가나다라마바사아자차카"

  /** A name composed through the IME bypasses the sanitiser: closing the
      composition and saving hands the parent exactly what was typed, even
      when that is not a valid name. */
  lemma ComposedNameEscapesSanitizer(e: NameEditor, raw: string)
    requires e.composing
    ensures SaveEditing(CompositionEnd(e, raw)).1 == raw
    ensures !CompositionEnd(e, raw).composing
    ensures raw == OverlongName ==> !IsValidName(SaveEditing(CompositionEnd(e, raw)).1)
  {
    assert |OverlongName| == 11;
  }

  function StartEditing(e: NameEditor): (r: NameEditor)
    ensures r.editing && r.value == e.value
  {
    e.(editing := true)
  }

  /** Save: the edited name is emitted to the parent and editing ends. */
  function SaveEditing(e: NameEditor): (r: (NameEditor, string))
    ensures r.1 == e.value
    ensures !r.0.editing && r.0.value == e.value
  {
    (e.(editing := false), e.value)
  }

  /** Cancel: the input goes back to the stored name and editing ends. */
  function CancelEditing(e: NameEditor, dataName: string): (r: NameEditor)
    ensures r.value == dataName && !r.editing
    ensures r.error == e.error && r.composing == e.composing
  {
    e.(value := dataName, editing := false)
  }

  /** Outside a composition, every value the field holds is a valid name. */
  lemma {:induction false} InputKeepsValid(e: NameEditor, raws: seq<string>)
    requires !e.composing && IsValidName(e.value)
    ensures IsValidName(Inputs(e, raws).value)
    decreases |raws|
  {
    if |raws| > 0 {
      InputKeepsValid(Input(e, raws[0]), raws[1..]);
    }
  }

  /** A run of change events, none inside a composition. */
  function Inputs(e: NameEditor, raws: seq<string>): NameEditor
    decreases |raws|
  {
    if |raws| == 0 then e else Inputs(Input(e, raws[0]), raws[1..])
  }
}
