/** Cutting text, as credentials and versions both do. */
module Text {
  import opened Wrappers

  /** What precedes and what follows the first dot, if there is one. */
  function CutAtDot(text: string): (parts: Option<(string, string)>)
    ensures parts.Some? ==> text == parts.value.0 + "." + parts.value.1 && '.' !in parts.value.0
    ensures parts.None? <==> '.' !in text
  {
    if text == "" then None
    else if text[0] == '.' then Some(("", text[1..]))
    else match CutAtDot(text[1..])
      case None => None
      case Some((before, after)) =>
        assert text == [text[0]] + text[1..];
        Some(([text[0]] + before, after))
  }

  /** A cut text is put together from its parts in one way only. */
  lemma {:induction false} CutJoined(before: string, after: string)
    requires '.' !in before
    ensures CutAtDot(before + "." + after) == Some((before, after))
    decreases |before|
  {
    var text := before + "." + after;
    if before == "" {
      assert text[1..] == after;
    } else {
      assert text[1..] == before[1..] + "." + after;
      CutJoined(before[1..], after);
      assert [before[0]] + before[1..] == before;
    }
  }
}
