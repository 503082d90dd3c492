/** The command loop of main.cpp: how one line typed at the prompt is classified. */
module Commands {
  import opened Text

  /** What `main` does with a command line. `Done(name)` is `<name> done`. */
  datatype Command = List | Add | Score | Exit | Done(name: string) | Unknown

  /** The four keywords are matched against the whole line; anything else is read as
      `ss >> taskName >> action`, and only the action "done" deletes. A line with fewer
      than two words leaves `action` empty, which is not "done". */
  function Classify(line: string): Command {
    if line == "list" then List
    else if line == "add" then Add
    else if line == "score" then Score
    else if line == "exit" then Exit
    else
      var first := ReadWord(line);
      if first.None? then Unknown
      else
        var second := ReadWord(first.value.1);
        if second.Some? && second.value.0 == "done" then Done(first.value.0) else Unknown
  }

  predicate IsKeyword(line: string) {
    line == "list" || line == "add" || line == "score" || line == "exit"
  }

  /** A keyword is recognised only as the exact line: no padding, no extra words. */
  lemma ClassifyKeywords(line: string)
    ensures Classify(line) == List <==> line == "list"
    ensures Classify(line) == Add <==> line == "add"
    ensures Classify(line) == Score <==> line == "score"
    ensures Classify(line) == Exit <==> line == "exit"
  {
  }

  /** `ss >> first >> second` reads exactly these two words from `line`: whitespace,
      the first word, at least one whitespace character, the second word, then nothing
      or whitespace followed by anything. */
  ghost predicate TwoWords(line: string, first: string, second: string) {
    exists lead, sep, tail ::
      AllSpace(lead) && IsWord(first) && |sep| > 0 && AllSpace(sep) && IsWord(second)
      && EndsWord(tail) && line == lead + first + sep + second + tail
  }

  /** No keyword holds whitespace. */
  lemma KeywordNoSpace(line: string)
    ensures IsKeyword(line) ==> NoSpace(line)
  {
    assert "list" == ['l', 'i', 's', 't'] && "add" == ['a', 'd', 'd'];
    assert "score" == ['s', 'c', 'o', 'r', 'e'] && "exit" == ['e', 'x', 'i', 't'];
  }

  /** A line of two words is a delete of the first word when the second is "done", and
      an unknown command otherwise; words after the second are ignored. This holds with
      any whitespace before and between the words, and for a first word that is itself a
      keyword such as `list`. */
  lemma ClassifyTwoWords(lead: string, first: string, sep: string, second: string, tail: string)
    requires AllSpace(lead) && IsWord(first) && |sep| > 0 && AllSpace(sep) && IsWord(second)
    requires EndsWord(tail)
    ensures Classify(lead + first + sep + second + tail)
            == if second == "done" then Done(first) else Unknown
  {
    var line := lead + first + sep + second + tail;
    var after := sep + second + tail;
    assert line == lead + (first + after);
    assert line[|lead| + |first|] == sep[0];
    KeywordNoSpace(line);
    ReadWordAfterBlank(lead, first + after);
    ReadWordOf(first, after);
    assert after == sep + (second + tail);
    ReadWordAfterBlank(sep, second + tail);
    ReadWordOf(second, tail);
  }

  /** A delete of `name` comes from exactly the lines whose first word is `name` and whose
      second word is "done". */
  lemma ClassifyDoneIff(line: string, name: string)
    ensures Classify(line) == Done(name) <==> TwoWords(line, name, "done")
  {
    if TwoWords(line, name, "done") {
      var lead, sep, tail :| AllSpace(lead) && IsWord(name) && |sep| > 0 && AllSpace(sep)
        && IsWord("done") && EndsWord(tail) && line == lead + name + sep + "done" + tail;
      ClassifyTwoWords(lead, name, sep, "done", tail);
    }
    if Classify(line) == Done(name) {
      DoneShape(line);
    }
  }

  /** The shape of a line classified as a delete. */
  lemma DoneShape(line: string)
    requires Classify(line).Done?
    ensures TwoWords(line, Classify(line).name, "done")
  {
    var name := Classify(line).name;
    ReadWordSpec(line);
    ReadWordShape(line);
    var r1 := ReadWord(line).value.1;
    var lead := line[..|line| - |name + r1|];
    assert line == lead + name + r1;
    ReadWordSpec(r1);
    ReadWordShape(r1);
    var tail := ReadWord(r1).value.1;
    var sep := r1[..|r1| - |"done" + tail|];
    assert r1 == sep + "done" + tail;
    assert IsSpace(r1[0]);
    assert line == lead + name + sep + "done" + tail;
  }

  /** Every line that is neither a keyword nor `<name> done` is an unknown command, and
      only those are. */
  lemma ClassifyUnknownIff(line: string)
    ensures Classify(line) == Unknown <==> !IsKeyword(line) && forall name :: !TwoWords(line, name, "done")
  {
    forall name | TwoWords(line, name, "done")
      ensures Classify(line) == Done(name)
    {
      ClassifyDoneIff(line, name);
    }
    if !IsKeyword(line) && Classify(line).Done? {
      DoneShape(line);
    }
  }

  /** A single word that is not a keyword is an unknown command: there is no action. */
  lemma ClassifySingleWord(w: string, tail: string)
    requires IsWord(w) && !IsKeyword(w + tail)
    requires AllSpace(tail) && EndsWord(tail)
    ensures Classify(w + tail) == Unknown
  {
    ReadWordOf(w, tail);
    ReadWordSpec(tail);
  }

  /** A blank line is an unknown command. */
  lemma ClassifyBlank(line: string)
    requires AllSpace(line)
    ensures Classify(line) == Unknown
  {
    ReadWordSpec(line);
    assert line != [] ==> IsSpace(line[0]);
  }
}
