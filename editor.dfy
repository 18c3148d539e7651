/**
 * The application state: the text of the input box, the cursor in it, counted in
 * characters, and the list of messages recorded so far. The editing methods change
 * the text and the cursor in place; submitting a line records its message.
 */
module Editor {
  import opened Wrappers
  import opened Text
  import opened Uuids
  import opened Conversion
  import opened Dispatch

  function Min(a: nat, b: nat): nat {
    if a <= b then a else b
  }

  /** `s.chars().take(n)`: the first `n` characters, or all of them. */
  function Take(s: string, n: nat): (r: string)
    ensures |r| == Min(n, |s|) && r == s[..|r|]
  {
    s[..Min(n, |s|)]
  }

  /** `s.chars().skip(n)`: everything after the first `n` characters. */
  function Skip(s: string, n: nat): (r: string)
    ensures |r| == |s| - Min(n, |s|) && r == s[|s| - |r|..]
  {
    s[Min(n, |s|)..]
  }

  /** `String::insert` at character position `k`. */
  function InsertAt(s: string, k: nat, c: char): (r: string)
    requires k <= |s|
    ensures |r| == |s| + 1 && r[k] == c
    ensures forall i :: 0 <= i < k ==> r[i] == s[i]
    ensures forall i :: k < i < |r| ==> r[i] == s[i - 1]
  {
    s[..k] + [c] + s[k..]
  }

  /** The text `delete_char` leaves when the cursor is at `k > 0`: the character before the cursor removed. */
  function DeleteBefore(s: string, k: nat): (r: string)
    requires k > 0
    ensures k <= |s| ==> |r| == |s| - 1 && r == s[..k - 1] + s[k..]
    ensures k > |s| ==> r == s
  {
    Take(s, k - 1) + Skip(s, k)
  }

  /** Deleting the character just typed restores the text. */
  lemma DeleteUndoesInsert(s: string, k: nat, c: char)
    requires k <= |s|
    ensures DeleteBefore(InsertAt(s, k, c), k + 1) == s
  {
    var r := InsertAt(s, k, c);
    assert r[..k] == s[..k];
    assert r[k + 1..] == s[k..];
  }

  class App {
    /** Current value of the input box. */
    var input: string
    /** Position of the cursor in the input box, in characters. */
    var characterIndex: nat
    /** History of recorded messages. */
    var messages: seq<string>

    /** The cursor stands on a character boundary of the input. */
    ghost predicate Valid()
      reads this
    {
      characterIndex <= |input|
    }

    /** `App::new`. */
    constructor ()
      ensures Valid()
      ensures input == [] && characterIndex == 0 && messages == []
    {
      input := [];
      characterIndex := 0;
      messages := [];
    }

    /** `clamp_cursor`: the nearest position in `0..=|input|`. */
    function ClampCursor(newCursorPos: nat): (r: nat)
      reads this
      ensures r <= |input|
      ensures newCursorPos <= |input| ==> r == newCursorPos
      ensures newCursorPos > |input| ==> r == |input|
    {
      if newCursorPos <= |input| then newCursorPos else |input|
    }

    /**
     * `byte_index`: where `insert` puts a new character. Over a sequence of characters
     * the byte offset of the cursor's character is its character index; past the end it
     * is the end of the text.
     */
    function ByteIndex(): (k: nat)
      reads this
      ensures k <= |input|
      ensures characterIndex <= |input| ==> k == characterIndex
      ensures characterIndex > |input| ==> k == |input|
    {
      if characterIndex < |input| then characterIndex else |input|
    }

    /** `move_cursor_left`: one to the left, saturating at 0, clamped to the text. */
    method MoveCursorLeft()
      modifies this
      ensures Valid()
      ensures characterIndex == Min(if old(characterIndex) == 0 then 0 else old(characterIndex) - 1, |input|)
      ensures old(Valid()) ==> characterIndex == if old(characterIndex) == 0 then 0 else old(characterIndex) - 1
      ensures input == old(input) && messages == old(messages)
    {
      var cursorMovedLeft := if characterIndex == 0 then 0 else characterIndex - 1;
      characterIndex := ClampCursor(cursorMovedLeft);
    }

    /** `move_cursor_right`: one to the right, clamped to the end of the text. */
    method MoveCursorRight()
      modifies this
      ensures Valid()
      ensures characterIndex == Min(old(characterIndex) + 1, |input|)
      ensures input == old(input) && messages == old(messages)
    {
      var cursorMovedRight := characterIndex + 1;
      characterIndex := ClampCursor(cursorMovedRight);
    }

    /** `enter_char`: insert at the cursor and step past the new character. */
    method EnterChar(newChar: char)
      modifies this
      ensures Valid()
      ensures input == InsertAt(old(input), old(ByteIndex()), newChar)
      ensures characterIndex == Min(old(characterIndex) + 1, |input|)
      ensures old(Valid()) ==> characterIndex == old(characterIndex) + 1
      ensures messages == old(messages)
    {
      var index := ByteIndex();
      input := input[..index] + [newChar] + input[index..];
      MoveCursorRight();
    }

    /** `delete_char`: remove the character before the cursor and step left; nothing at 0. */
    method DeleteChar()
      modifies this
      ensures Valid()
      ensures old(characterIndex) == 0 ==> input == old(input) && characterIndex == 0
      ensures old(characterIndex) != 0 ==>
                input == DeleteBefore(old(input), old(characterIndex))
                && characterIndex == Min(old(characterIndex) - 1, |input|)
      ensures old(Valid()) && old(characterIndex) != 0 ==>
                input == old(input[..characterIndex - 1]) + old(input[characterIndex..])
                && characterIndex == old(characterIndex) - 1
      ensures messages == old(messages)
    {
      var isNotCursorLeftmost := characterIndex != 0;
      if isNotCursorLeftmost {
        var currentIndex := characterIndex;
        var fromLeftToCurrentIndex := currentIndex - 1;
        var beforeCharToDelete := Take(input, fromLeftToCurrentIndex);
        var afterCharToDelete := Skip(input, currentIndex);
        input := beforeCharToDelete + afterCharToDelete;
        MoveCursorLeft();
      }
    }

    /** `reset_cursor`. */
    method ResetCursor()
      modifies this
      ensures characterIndex == 0
      ensures input == old(input) && messages == old(messages)
    {
      characterIndex := 0;
    }

    /**
     * `submit_message`: convert the trimmed input, append exactly one message, clear the
     * input and put the cursor at 0. The conversion itself is `Dispatch.Convert`.
     */
    method SubmitMessage()
      modifies this
      ensures messages == old(messages) + [Response(old(input))]
      ensures input == [] && characterIndex == 0 && Valid()
    {
      var trimmed := Trim(input);
      var result := Convert(trimmed);
      Record(result);
    }

    /** The last steps of `submit_message`: push the message, clear the input, reset the cursor. */
    method Record(result: string)
      modifies this
      ensures messages == old(messages) + [result]
      ensures input == [] && characterIndex == 0 && Valid()
    {
      messages := messages + [result];
      input := [];
      ResetCursor();
    }
  }
}
