/**
 * The output sink that captures what Composer writes into an array of lines.
 * A write either extends the current line or, when asked for a new line or when
 * the message carries a line break or backspace marker, completes it.
 */
module ArrayOutputs {
  import opened Wrappers
  import opened Php
  import opened Json

  /** `strpos(...) > 0`: PHP's false compares as 0, so a miss is never past the start. */
  predicate PastStart(pos: Option<nat>) {
    pos.Some? && pos.value > 0
  }

  /** The test that makes a write complete the current line even without a newline request (PHP_EOL is "\n"). */
  predicate ForcesLineBreak(message: string) {
    PastStart(StrPos(EncodeString(message), "\n")) || PastStart(StrPos(EncodeString(message), "\\b"))
  }

  /**
   * json_encode never leaves a raw line break, so only the `\b` marker can fire: a
   * message completes the line exactly when it holds chr(8) or a backslash followed by `b`.
   */
  lemma ForcesLineBreakIff(message: string)
    ensures ForcesLineBreak(message) <==> Backspace in message || Contains(message, "\\b")
  {
    var e := EncodeString(message);
    EncodeStringMarkers(message);
    NotContainsFirstChar(e, "\n");
    if Contains(e, "\\b") {
      var k := StrPos(e, "\\b").value;
      StartsWithChar(e, "\\b", k, 0);
      assert k != 0;
    }
  }

  /** All completed lines written back to back. */
  function Concat(lines: seq<string>): string
    decreases |lines|
  {
    if lines == [] then "" else Concat(lines[..|lines| - 1]) + lines[|lines| - 1]
  }

  lemma ConcatAppend(lines: seq<string>, line: string)
    ensures Concat(lines + [line]) == Concat(lines) + line
  {
    assert (lines + [line])[..|lines|] == lines;
  }

  /** Both outcomes of a write keep the text written so far, followed by the message. */
  lemma WriteKeepsText(lines: seq<string>, cur: string, message: string)
    ensures Concat(lines) + (cur + message) == Concat(lines) + cur + message
    ensures Concat(lines + [cur + message]) + "" == Concat(lines) + cur + message
  {
    ConcatAppend(lines, cur + message);
  }

  class ArrayOutput {
    /** The completed lines. */
    var lines: seq<string>
    /** The line being written. */
    var curLine: string

    /** Verbosity, decoration and formatter go to the Symfony base class and are not part of this model. */
    constructor ()
      ensures lines == [] && curLine == ""
    {
      lines := [];
      curLine := "";
    }

    /**
     * doWrite: the message joins the current line; the line is completed when a
     * newline is requested or the message forces one. Nothing written is lost.
     */
    method DoWrite(message: string, newline: bool)
      modifies this
      ensures newline || ForcesLineBreak(message) ==>
                lines == old(lines) + [old(curLine) + message] && curLine == ""
      ensures !(newline || ForcesLineBreak(message)) ==>
                lines == old(lines) && curLine == old(curLine) + message
      ensures Concat(lines) + curLine == Concat(old(lines)) + old(curLine) + message
    {
      WriteKeepsText(lines, curLine, message);
      curLine := curLine + message;
      var complete := newline;
      if ForcesLineBreak(message) {
        complete := true;
      }
      if !complete {
        return;
      }
      lines := lines + [curLine];
      curLine := "";
    }

    method GetLines() returns (r: seq<string>)
      ensures r == lines
    {
      r := lines;
    }

    /** Only the completed lines are dropped; the line being written stays. */
    method ClearLines()
      modifies this
      ensures lines == [] && curLine == old(curLine)
    {
      lines := [];
    }
  }

  /** A plain write of text without markers stays pending; a newline request then completes it as one line. */
  method WritesAndCollectsLines(text: string, more: string) returns (afterWrite: seq<string>, afterWriteln: seq<string>)
    requires forall i :: 0 <= i < |text| ==> text[i] != Backspace && text[i] != '\\'
    ensures afterWrite == [] && afterWriteln == [text + more]
  {
    var output := new ArrayOutput();
    ForcesLineBreakIff(text);
    NotContainsFirstChar(text, "\\b");
    output.DoWrite(text, false);
    afterWrite := output.GetLines();
    output.DoWrite(more, true);
    assert "" + text + more == text + more;
    afterWriteln := output.GetLines();
  }

  /** A backspace completes the line without a newline request; clearing drops the completed lines. */
  method DetectsSpecialContentAsNewLineAndCanClear(head: string, tail: string, next: string)
    returns (first: seq<string>, second: seq<string>, cleared: seq<string>)
    ensures first == [head + [Backspace] + tail]
    ensures second == [head + [Backspace] + tail, next]
    ensures cleared == []
  {
    var output := new ArrayOutput();
    var message := head + [Backspace] + tail;
    ForcesLineBreakIff(message);
    assert message[|head|] == Backspace;
    output.DoWrite(message, false);
    assert "" + message == message;
    first := output.GetLines();
    output.DoWrite(next, true);
    assert "" + next == next;
    second := output.GetLines();
    output.ClearLines();
    cleared := output.GetLines();
  }
}
