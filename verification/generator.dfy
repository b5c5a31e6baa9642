/**
 * The text generator of `ai_twitter_bot.py`: the completion service's answer
 * is cleaned by trimming it and, when it carries a reasoning trace, keeping
 * only what follows the trace's closing marker. The completion service itself
 * is not modelled: its answer (or its failure) is an input.
 */
module Generator {
  import opened Options
  import opened Text

  /** The marker whose presence tells the generator a reasoning trace is there. */
  const ThinkOpen: string := "<think>"

  /** What the generator splits on: the closing marker plus a blank line. */
  const ThinkSeparator: string := "</think>\n\n"

  /** The separator's first character `<` appears nowhere else in it. */
  lemma SeparatorHeadUnique()
    ensures HeadUnique(ThinkSeparator)
  {
    assert ThinkSeparator == ['<', '/', 't', 'h', 'i', 'n', 'k', '>', '\n', '\n'];
  }

  /** The post-processing of `generate_response`: strip the completion; if it
      mentions the opening marker, keep the last piece after the separator and
      strip that again. */
  function CleanCompletion(content: string): (r: string)
    ensures Trimmed(r)
    ensures IsInfix(r, content)
  {
    var m := Strip(content);
    StripIsInfix(content);
    if Contains(m, ThinkOpen) then
      var tail := LastSegment(m, ThinkSeparator);
      assert IsInfix(tail, m) by {
        assert tail == m[|m| - |tail|..|m|];
      }
      StripIsInfix(tail);
      InfixTransitive(Strip(tail), tail, m);
      InfixTransitive(Strip(tail), m, content);
      Strip(tail)
    else
      m
  }

  /** `Strip` returns a piece of its input. */
  lemma StripIsInfix(s: string)
    ensures IsInfix(Strip(s), s)
  {
  }

  /** `generate_response`: `None` when the completion call failed (the
      service raised, or its answer had no content), otherwise the cleaned
      text, which may be empty. */
  function GenerateResponse(completion: Option<string>): (r: Option<string>)
    ensures r.None? <==> completion.None?
    ensures r.Some? ==> Trimmed(r.value) && IsInfix(r.value, completion.value)
  {
    match completion
    case None => None
    case Some(content) => Some(CleanCompletion(content))
  }

  /** Without the opening marker, the result is exactly the stripped
      completion. */
  lemma CleanWithoutThink(content: string)
    requires !Occurs(Strip(content), ThinkOpen)
    ensures CleanCompletion(content) == Strip(content)
  {
  }

  /** With the opening marker and the separator present, the result is the
      stripped text after the LAST separator. */
  lemma CleanAfterLastSeparator(content: string)
    requires Occurs(Strip(content), ThinkOpen)
    requires Occurs(Strip(content), ThinkSeparator)
    ensures exists k ::
      && AfterLastOccurrence(Strip(content), ThinkSeparator, k)
      && CleanCompletion(content) == Strip(Strip(content)[k..])
  {
    var m := Strip(content);
    SeparatorHeadUnique();
    LastSegmentAfterLast(m, ThinkSeparator);
  }

  /** Whenever the trace is cut, the result holds no separator. */
  lemma CleanHasNoSeparator(content: string)
    requires Occurs(Strip(content), ThinkOpen)
    ensures !Occurs(CleanCompletion(content), ThinkSeparator)
  {
    var m := Strip(content);
    var tail := LastSegment(m, ThinkSeparator);
    StripIsInfix(tail);
    InfixKeepsAbsence(Strip(tail), tail, ThinkSeparator);
  }

  /** The quirk: the opening marker is present but never followed by the
      closing marker and a blank line, so the reasoning trace is kept. */
  lemma ThinkBlockKept(content: string)
    requires Occurs(Strip(content), ThinkOpen)
    requires !Occurs(Strip(content), ThinkSeparator)
    ensures CleanCompletion(content) == Strip(content)
    ensures Occurs(CleanCompletion(content), ThinkOpen)
  {
    var m := Strip(content);
    StripOfTrimmed(m);
  }

  /** The result is the whole stripped completion exactly when the trace is
      not cut: the opening marker or the separator is missing. */
  lemma CleanKeepsWholeIff(content: string)
    ensures CleanCompletion(content) == Strip(content)
      <==> !(Occurs(Strip(content), ThinkOpen) && Occurs(Strip(content), ThinkSeparator))
  {
    var m := Strip(content);
    if Occurs(m, ThinkOpen) && Occurs(m, ThinkSeparator) {
      var tail := LastSegment(m, ThinkSeparator);
      StripIsInfix(tail);
      var lo, hi :| 0 <= lo <= hi <= |tail| && Strip(tail) == tail[lo..hi];
      assert |CleanCompletion(content)| < |m|;
    } else if Occurs(m, ThinkOpen) {
      ThinkBlockKept(content);
    }
  }

  /** A concrete completion showing the quirk: the closing marker is followed
      by a single newline, so the reasoning trace stays in the message. */
  lemma SingleNewlineKeepsTrace()
    ensures CleanCompletion("<think>plan</think>\nObey.") == "<think>plan</think>\nObey."
  {
    var s := "<think>plan</think>\nObey.";
    StripOfTrimmed(s);
    assert OccursAt(s, ThinkOpen, 0);
    forall p: nat ensures !OccursAt(s, ThinkSeparator, p) {
      if p + |ThinkSeparator| <= |s| {
        assert s[p..p + 10][8] == s[p + 8] && s[p..p + 10][9] == s[p + 9];
        assert s[p + 8] != '\n' || s[p + 9] != '\n';
      }
    }
    ThinkBlockKept(s);
  }
}
