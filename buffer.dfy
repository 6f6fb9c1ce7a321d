/**
 * The buffer step of `typeSelected`: what the pending selection does to
 * the written text. `None` stands for the page script's empty selection `""`;
 * the buffer of one-character strings is a string, so joining it is the
 * identity.
 */
module Buffer {
  import opened Wrappers
  import opened Shuffle

  /** Shown once the buffer has been emitted. */
  const Placeholder: string := "Type here whatever you want!"

  /** A symbol that is typed rather than acted upon. */
  predicate Ordinary(c: char) { c != BACKSPACE && c != ENTER }

  /**
   * The new buffer, the text surfaced to the user (the page script's `alert`)
   * and the new text of the display (`None`: left as it was).
   */
  datatype Outcome = Outcome(buffer: string, emitted: Option<string>, display: Option<string>)

  /**
   * One round of `typeSelected` on the buffer. Only the commit symbol
   * surfaces text, and it surfaces the whole buffer; only an empty
   * selection leaves the display alone; delete-last shortens the buffer
   * to a prefix; any other symbol is appended.
   */
  function Apply(buffer: string, selected: Option<char>): (o: Outcome)
    ensures o.emitted != None <==> selected == Some(ENTER)
    ensures o.display == None <==> selected == None
    ensures selected == None ==> o.buffer == buffer
    ensures selected == Some(ENTER) ==> o == Outcome([], Some(buffer), Some(Placeholder))
    ensures selected == Some(BACKSPACE) ==>
              o.buffer <= buffer && |o.buffer| == (if buffer == [] then 0 else |buffer| - 1)
    ensures selected.Some? && Ordinary(selected.value) ==> o.buffer == buffer + [selected.value]
    ensures selected.Some? && selected != Some(ENTER) ==> o.display == Some(o.buffer)
  {
    match selected
    case None => Outcome(buffer, None, None)
    case Some(c) =>
      if c == BACKSPACE then
        var rest := if buffer == [] then [] else buffer[..|buffer| - 1];
        Outcome(rest, None, Some(rest))
      else if c == ENTER then
        Outcome([], Some(buffer), Some(Placeholder))
      else
        Outcome(buffer + [c], None, Some(buffer + [c]))
  }

  /** An empty selection changes neither the buffer nor the display. */
  lemma EmptySelectionIsInert(buffer: string)
    ensures Apply(buffer, None) == Outcome(buffer, None, None)
  {
  }

  /** Delete-last removes the last symbol and does nothing to an empty buffer. */
  lemma BackspaceDropsLast(buffer: string)
    ensures buffer != [] ==> Apply(buffer, Some(BACKSPACE)).buffer + [buffer[|buffer| - 1]] == buffer
    ensures buffer == [] ==> Apply(buffer, Some(BACKSPACE)).buffer == []
  {
  }

  /** Delete-last undoes typing an ordinary symbol. */
  lemma BackspaceUndoesTyping(buffer: string, c: char)
    requires Ordinary(c)
    ensures Apply(Apply(buffer, Some(c)).buffer, Some(BACKSPACE)) == Outcome(buffer, None, Some(buffer))
  {
    assert (buffer + [c])[..|buffer|] == buffer;
  }

  /** Commit surfaces the whole buffer and leaves it empty. */
  lemma EnterEmitsAndClears(buffer: string)
    ensures Apply(buffer, Some(ENTER)) == Outcome([], Some(buffer), Some(Placeholder))
  {
  }

  /** The buffer after a series of rounds, each applying one selection. */
  function Replay(buffer: string, selections: seq<Option<char>>): string
    decreases |selections|
  {
    if selections == [] then buffer
    else Replay(Apply(buffer, selections[0]).buffer, selections[1..])
  }

  /** The selections made by typing the symbols of `word` one after the other. */
  function Keys(word: string): (keys: seq<Option<char>>)
    ensures |keys| == |word|
    ensures forall i :: 0 <= i < |word| ==> keys[i] == Some(word[i])
  {
    if word == [] then [] else [Some(word[0])] + Keys(word[1..])
  }

  /** Typing ordinary symbols appends exactly those symbols. */
  lemma {:induction false} TypingAppends(buffer: string, word: string)
    requires forall i :: 0 <= i < |word| ==> Ordinary(word[i])
    ensures Replay(buffer, Keys(word)) == buffer + word
    decreases |word|
  {
    if word == [] {
      assert buffer + word == buffer;
    } else {
      var keys := Keys(word);
      var next := Apply(buffer, Some(word[0])).buffer;
      assert next == buffer + [word[0]];
      assert keys[1..] == Keys(word[1..]);
      assert Replay(buffer, keys) == Replay(next, keys[1..]);
      TypingAppends(next, word[1..]);
      assert next + word[1..] == buffer + word;
    }
  }

  /** Typing a word into an empty buffer and committing surfaces that word and empties the buffer. */
  lemma TypeThenCommit(word: string)
    requires forall i :: 0 <= i < |word| ==> Ordinary(word[i])
    ensures Apply(Replay([], Keys(word)), Some(ENTER)) == Outcome([], Some(word), Some(Placeholder))
  {
    TypingAppends([], word);
    assert [] + word == word;
  }

  /** Rounds with nothing selected never change the buffer, however many there are. */
  lemma {:induction false} EmptyRoundsKeepBuffer(buffer: string, selections: seq<Option<char>>)
    requires forall i :: 0 <= i < |selections| ==> selections[i] == None
    ensures Replay(buffer, selections) == buffer
    decreases |selections|
  {
    if selections != [] {
      EmptyRoundsKeepBuffer(buffer, selections[1..]);
    }
  }

  /** Typing "h" and "i", deleting the last symbol, then committing surfaces "h". */
  lemma TypingSession()
    ensures Replay([], [Some('h'), Some('i')]) == "hi"
    ensures Apply("hi", Some(BACKSPACE)).buffer == "h"
    ensures Apply("h", Some(ENTER)) == Outcome([], Some("h"), Some(Placeholder))
  {
  }
}
