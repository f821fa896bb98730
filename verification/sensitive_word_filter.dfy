/** The banned-word check applied to user-submitted text: the text is
    rejected when it contains, ignoring case, any configured word that is
    not blank. Case is folded in ASCII only. */
module SensitiveWordFilter {
  import opened Wrappers
  import opened Text
  import opened Errors

  const REJECTION: string := "内容包含敏感词，请重新编辑"

  /** `word` is a non-blank entry found in `text`, ignoring case. */
  predicate Flags(text: string, word: string) {
    HasText(word) && Contains(Lower(text), Lower(word))
  }

  /** `assertClean`: a missing or blank text, or an empty word list,
      passes; otherwise the first flagging word rejects the text. */
  function AssertClean(text: Option<string>, words: seq<string>): (r: Outcome<()>)
    ensures r.Failure? <==> text.Some? && HasText(text.value) && exists i :: 0 <= i < |words| && Flags(text.value, words[i])
    ensures r.Failure? ==> r.error == Fail(BadRequest, REJECTION)
  {
    if text.None? || !HasText(text.value) || words == [] then Success(())
    else FirstFlag(text.value, words)
  }

  function FirstFlag(text: string, words: seq<string>): (r: Outcome<()>)
    ensures r.Failure? <==> exists i :: 0 <= i < |words| && Flags(text, words[i])
    ensures r.Failure? ==> r.error == Fail(BadRequest, REJECTION)
    decreases |words|
  {
    if words == [] then Success(())
    else if Flags(text, words[0]) then Failure(Fail(BadRequest, REJECTION))
    else
      var r := FirstFlag(text, words[1..]);
      assert forall i :: 1 <= i < |words| ==> words[i] == words[1..][i - 1];
      r
  }

  /** Only a text with some non-whitespace character can contain a
      non-blank word, so the guard on blank text never changes the verdict. */
  lemma FlaggedTextHasText(text: string, word: string)
    ensures Flags(text, word) ==> HasText(text)
  {
    if Flags(text, word) {
      var i :| OccursAt(Lower(text), Lower(word), i);
      var k :| 0 <= k < |word| && !IsWhitespace(word[k]);
      assert Lower(text)[i + k] == Lower(word)[k];
      assert !IsWhitespace(text[i + k]);
    }
  }

  /** Blank entries in the list never cause a rejection. */
  lemma BlankWordsIgnored(text: Option<string>, words: seq<string>, blank: string)
    requires !HasText(blank)
    ensures AssertClean(text, words + [blank]).Failure? <==> AssertClean(text, words).Failure?
  {
    var ws := words + [blank];
    if text.Some? && HasText(text.value) {
      if exists i :: 0 <= i < |ws| && Flags(text.value, ws[i]) {
        var i :| 0 <= i < |ws| && Flags(text.value, ws[i]);
        assert i < |words| && ws[i] == words[i];
      }
      if exists i :: 0 <= i < |words| && Flags(text.value, words[i]) {
        var i :| 0 <= i < |words| && Flags(text.value, words[i]);
        assert ws[i] == words[i];
      }
    }
  }
}
