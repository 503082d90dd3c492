/** The task list of main.cpp: tasks with a name and a count of remaining days,
    the decay rule of `updateDeadlines`, the stable multi-match removal of `deleteTask`,
    the running minimum of `computeDeadlineScore`, and the `name deadline` line format
    of `saveTasks` / `loadTasks`. */
module Tasks {
  import opened Text

  /** `struct Task`. Nothing keeps `deadline` non-negative: `addTask` stores what it reads. */
  datatype Task = Task(name: string, deadline: int)

  // ---------------------------------------------------------------------------
  // Deadline decay

  /** `max(0, x)`. */
  function FloorAtZero(x: int): int {
    if x > 0 then x else 0
  }

  /** The task list after `daysPassed` elapsed days: unchanged when `daysPassed <= 0`,
      otherwise every deadline becomes `max(0, deadline - daysPassed)`. */
  function Decayed(ts: seq<Task>, daysPassed: int): seq<Task> {
    if daysPassed <= 0 then ts
    else seq(|ts|, i requires 0 <= i < |ts| => ts[i].(deadline := FloorAtZero(ts[i].deadline - daysPassed)))
  }

  /** No elapsed day, or a clock that went back, changes no task at all. */
  lemma DecayNoElapsedDays(ts: seq<Task>, daysPassed: int)
    requires daysPassed <= 0
    ensures Decayed(ts, daysPassed) == ts
  {
  }

  /** Decay keeps the list's length, order and names, and leaves no deadline negative. */
  lemma DecayShape(ts: seq<Task>, daysPassed: int)
    requires daysPassed > 0
    ensures |Decayed(ts, daysPassed)| == |ts|
    ensures forall i :: 0 <= i < |ts| ==>
              Decayed(ts, daysPassed)[i].name == ts[i].name
              && Decayed(ts, daysPassed)[i].deadline >= 0
              && Decayed(ts, daysPassed)[i].deadline == (if ts[i].deadline > daysPassed then ts[i].deadline - daysPassed else 0)
  {
  }

  /** Two decays by `k1` and `k2` days are one decay by `k1 + k2` days. */
  lemma DecayCompose(ts: seq<Task>, k1: int, k2: int)
    requires k1 > 0 && k2 > 0
    ensures Decayed(Decayed(ts, k1), k2) == Decayed(ts, k1 + k2)
  {
    var once, twice := Decayed(ts, k1 + k2), Decayed(Decayed(ts, k1), k2);
    assert |twice| == |once|;
    forall i | 0 <= i < |once|
      ensures twice[i] == once[i]
    {
      assert FloorAtZero(FloorAtZero(ts[i].deadline - k1) - k2) == FloorAtZero(ts[i].deadline - (k1 + k2));
    }
  }

  // ---------------------------------------------------------------------------
  // Removal by name

  /** The tasks not named `name`, in their original order: what `remove_if` + `erase` leave. */
  function Removed(ts: seq<Task>, name: string): seq<Task>
    decreases |ts|
  {
    if ts == [] then []
    else
      var last := ts[|ts| - 1];
      Removed(ts[..|ts| - 1], name) + (if last.name == name then [] else [last])
  }

  predicate HasName(ts: seq<Task>, name: string) {
    exists i :: 0 <= i < |ts| && ts[i].name == name
  }

  /** Removal distributes over concatenation: the kept tasks stay in their relative order. */
  lemma {:induction false} RemovedAppend(a: seq<Task>, b: seq<Task>, name: string)
    ensures Removed(a + b, name) == Removed(a, name) + Removed(b, name)
    decreases |b|
  {
    if b == [] {
      assert a + b == a;
    } else {
      var b' := b[..|b| - 1];
      assert (a + b)[..|a + b| - 1] == a + b';
      RemovedAppend(a, b', name);
    }
  }

  /** Every task named `name` is gone; every other task keeps its number of occurrences. */
  lemma {:induction false} RemovedContents(ts: seq<Task>, name: string)
    ensures forall t :: t in Removed(ts, name) ==> t.name != name
    ensures forall t: Task :: t.name != name ==> multiset(Removed(ts, name))[t] == multiset(ts)[t]
    decreases |ts|
  {
    if ts != [] {
      var init := ts[..|ts| - 1];
      RemovedContents(init, name);
      assert ts == init + [ts[|ts| - 1]];
    }
  }

  /** The list gets shorter exactly when some task has the name; `deleteTask`'s "found". */
  lemma {:induction false} RemovedShorter(ts: seq<Task>, name: string)
    ensures |Removed(ts, name)| <= |ts|
    ensures |Removed(ts, name)| < |ts| <==> HasName(ts, name)
    decreases |ts|
  {
    if ts != [] {
      var init := ts[..|ts| - 1];
      RemovedShorter(init, name);
      if HasName(ts, name) {
        var i :| 0 <= i < |ts| && ts[i].name == name;
        if i < |init| {
          assert init[i].name == name;
        }
      }
      if HasName(init, name) {
        var i :| 0 <= i < |init| && init[i].name == name;
        assert ts[i].name == name;
      }
    }
  }

  /** Nothing matched: the list is left as it was. */
  lemma {:induction false} RemovedNothing(ts: seq<Task>, name: string)
    requires !HasName(ts, name)
    ensures Removed(ts, name) == ts
    decreases |ts|
  {
    if ts != [] {
      var init := ts[..|ts| - 1];
      forall i | 0 <= i < |init|
        ensures init[i].name != name
      {
        assert init[i] == ts[i];
      }
      RemovedNothing(init, name);
      assert ts[|ts| - 1].name != name;
      assert init + [ts[|ts| - 1]] == ts;
    }
  }

  /** Deleting the same name twice is the same as deleting it once. */
  lemma RemovedTwice(ts: seq<Task>, name: string)
    ensures Removed(Removed(ts, name), name) == Removed(ts, name)
  {
    RemovedContents(ts, name);
    var r := Removed(ts, name);
    forall i | 0 <= i < |r|
      ensures r[i].name != name
    {
      assert r[i] in r;
    }
    RemovedNothing(r, name);
  }

  // ---------------------------------------------------------------------------
  // Minimum deadline

  /** The starting value of `computeDeadlineScore`'s running minimum. */
  const MinDeadlineStart := 10000

  /** The integer part of `computeDeadlineScore`: None for the empty list (the early
      `return 100.0`), otherwise the running minimum of the deadlines started at 10000. */
  method MinDeadline(ts: seq<Task>) returns (m: Option<int>)
    ensures m.None? <==> ts == []
    ensures m.Some? ==> m.value <= MinDeadlineStart
    ensures m.Some? ==> forall i :: 0 <= i < |ts| ==> m.value <= ts[i].deadline
    ensures m.Some? ==> m.value == MinDeadlineStart || exists i :: 0 <= i < |ts| && ts[i].deadline == m.value
    ensures m.Some? && (forall i :: 0 <= i < |ts| ==> ts[i].deadline >= MinDeadlineStart) ==> m.value == MinDeadlineStart
  {
    if ts == [] {
      return None;
    }
    var minDeadline := MinDeadlineStart;
    var i := 0;
    while i < |ts|
      invariant 0 <= i <= |ts|
      invariant minDeadline <= MinDeadlineStart
      invariant forall j :: 0 <= j < i ==> minDeadline <= ts[j].deadline
      invariant minDeadline == MinDeadlineStart || exists j :: 0 <= j < i && ts[j].deadline == minDeadline
    {
      if ts[i].deadline < minDeadline {
        minDeadline := ts[i].deadline;
      }
      i := i + 1;
    }
    m := Some(minDeadline);
  }

  // ---------------------------------------------------------------------------
  // Task file text

  /** `file << task.name << " " << task.deadline`, without the trailing "\n". */
  function TaskText(t: Task): string {
    t.name + " " + IntToString(t.deadline)
  }

  /** `saveTasks`: one `name deadline\n` line per task, in list order. */
  function SerialiseTasks(ts: seq<Task>): string
    decreases |ts|
  {
    if ts == [] then "" else TaskText(ts[0]) + "\n" + SerialiseTasks(ts[1..])
  }

  /** Writing one more task appends its line at the end of the text. */
  lemma {:induction false} SerialiseSnoc(ts: seq<Task>, t: Task)
    ensures SerialiseTasks(ts + [t]) == SerialiseTasks(ts) + TaskText(t) + "\n"
    decreases |ts|
  {
    if ts == [] {
      assert [] + [t] == [t];
      assert [t][1..] == [];
    } else {
      assert (ts + [t])[0] == ts[0];
      assert (ts + [t])[1..] == ts[1..] + [t];
      SerialiseSnoc(ts[1..], t);
    }
  }

  /** The loop of `saveTasks`: the text written for the list, task by task. */
  method WriteTasks(ts: seq<Task>) returns (text: string)
    ensures text == SerialiseTasks(ts)
  {
    text := "";
    var i := 0;
    while i < |ts|
      invariant 0 <= i <= |ts|
      invariant text == SerialiseTasks(ts[..i])
    {
      SerialiseSnoc(ts[..i], ts[i]);
      assert ts[..i + 1] == ts[..i] + [ts[i]];
      text := text + TaskText(ts[i]) + "\n";
      i := i + 1;
    }
    assert ts[..i] == ts;
  }

  /** `ss >> task.name >> task.deadline` on one line. When text follows the name but no
      integer can be read from it, the deadline is 0, as a failed `operator>>` into an
      `int` stores 0. None when the line holds no name, or nothing after it: the read of
      the deadline then stops at the end of the line and leaves it unset. */
  function ParseTaskLine(line: string): Option<Task> {
    var w := ReadWord(line);
    if w.None? || TrimLeft(w.value.1) == [] then None
    else
      var d := ScanInt(w.value.1);
      Some(Task(w.value.0, if d.None? then 0 else d.value.0))
  }

  /** A line holding no word, or one word with only whitespace around it. */
  ghost predicate FewerThanTwoWords(line: string) {
    AllSpace(line)
    || exists lead, w, tail :: AllSpace(lead) && IsWord(w) && AllSpace(tail) && line == lead + w + tail
  }

  /** A line yields no task exactly when it has no second field, and every name read is
      a whitespace-free word. */
  lemma ParseTaskLineSpec(line: string)
    ensures ParseTaskLine(line).None? <==> FewerThanTwoWords(line)
    ensures ParseTaskLine(line).Some? ==> IsWord(ParseTaskLine(line).value.name)
  {
    ReadWordSpec(line);
    var r := ReadWord(line);
    if r.Some? {
      var w, rest := r.value.0, r.value.1;
      TrimLeftEmpty(rest);
      if TrimLeft(rest) == [] {
        ReadWordShape(line);
        var n := |line| - |w + rest|;
        assert AllSpace(line[..n]) && IsWord(w) && AllSpace(rest) && line == line[..n] + w + rest;
      }
    }
    if FewerThanTwoWords(line) && !AllSpace(line) {
      var lead, w, tail :| AllSpace(lead) && IsWord(w) && AllSpace(tail) && line == lead + w + tail;
      OneWordLine(lead, w, tail);
    }
  }

  /** A single word with whitespace around it gives no task. */
  lemma OneWordLine(lead: string, w: string, tail: string)
    requires AllSpace(lead) && IsWord(w) && AllSpace(tail)
    ensures ParseTaskLine(lead + w + tail) == None
  {
    assert lead + w + tail == lead + (w + tail);
    ReadWordAfterBlank(lead, w + tail);
    assert tail == [] || IsSpace(tail[0]);
    ReadWordOf(w, tail);
    TrimLeftEmpty(tail);
  }

  /** A name followed by text that is not an integer gives that name with deadline 0. */
  lemma ParseUnreadableDeadline(lead: string, w: string, rest: string)
    requires AllSpace(lead) && IsWord(w) && EndsWord(rest)
    requires !AllSpace(rest) && ScanInt(rest).None?
    ensures ParseTaskLine(lead + w + rest) == Some(Task(w, 0))
  {
    assert lead + w + rest == lead + (w + rest);
    ReadWordAfterBlank(lead, w + rest);
    ReadWordOf(w, rest);
    TrimLeftEmpty(rest);
  }

  /** The task list a task file's text holds: one task per line, in order; None when
      some line is malformed. */
  function ParseTasks(text: string): Option<seq<Task>> {
    var ls := Lines(text);
    if forall i :: 0 <= i < |ls| ==> ParseTaskLine(ls[i]).Some?
    then Some(seq(|ls|, i requires 0 <= i < |ls| => ParseTaskLine(ls[i]).value))
    else None
  }

  /** Names `operator>>` reads back whole: non-empty and whitespace-free. */
  predicate WellNamed(ts: seq<Task>) {
    forall i :: 0 <= i < |ts| ==> IsWord(ts[i].name)
  }

  /** Every task read from a file has a name that reads back whole. */
  lemma ParsedTasksWellNamed(text: string)
    requires ParseTasks(text).Some?
    ensures WellNamed(ParseTasks(text).value)
  {
    var ls := Lines(text);
    var ts := ParseTasks(text).value;
    forall i | 0 <= i < |ts|
      ensures IsWord(ts[i].name)
    {
      ParseTaskLineSpec(ls[i]);
    }
  }

  /** `loadTasks`: read the file line by line and `push_back` each parsed task. */
  method LoadTasks(text: string) returns (ts: Option<seq<Task>>)
    ensures ts == ParseTasks(text)
  {
    var ls := Lines(text);
    var acc: seq<Task> := [];
    var i := 0;
    while i < |ls|
      invariant 0 <= i <= |ls| && |acc| == i
      invariant forall j :: 0 <= j < i ==> ParseTaskLine(ls[j]) == Some(acc[j])
    {
      var t := ParseTaskLine(ls[i]);
      if t.None? {
        assert !(forall j :: 0 <= j < |ls| ==> ParseTaskLine(ls[j]).Some?);
        return None;
      }
      acc := acc + [t.value];
      i := i + 1;
    }
    assert acc == seq(|ls|, j requires 0 <= j < |ls| => ParseTaskLine(ls[j]).value);
    ts := Some(acc);
  }

  lemma TaskTextShape(t: Task)
    requires IsWord(t.name)
    ensures TaskText(t) == t.name + ([' '] + IntToString(t.deadline))
    ensures '\n' !in TaskText(t)
  {
    var s := TaskText(t);
    var n := if t.deadline < 0 then -t.deadline else t.deadline;
    var ds := NatToString(n);
    forall i | 0 <= i < |s|
      ensures s[i] != '\n'
    {
      if i < |t.name| {
        assert s[i] == t.name[i];
      } else if i > |t.name| + 1 || (i == |t.name| + 1 && t.deadline >= 0) {
        assert s[i] == ds[i - |s| + |ds|];
      }
    }
  }

  /** The number after the separating space reads back whole. */
  lemma ScanIntAfterSpace(d: int, s: string)
    requires s != [] && s[0] == ' ' && s[1..] == IntToString(d)
    ensures ScanInt(s) == Some((d, []))
  {
    var num := IntToString(d);
    assert TrimLeft(s) == TrimLeft(num);
    assert num[0] == '-' || IsDigit(num[0]);
    TrimLeftOfNonSpace(num);
    ScanIntOfIntToString(d, []);
    assert num + [] == num;
  }

  /** One written line reads back as the same task. */
  lemma ParseTaskText(t: Task)
    requires IsWord(t.name)
    ensures ParseTaskLine(TaskText(t)) == Some(t)
  {
    TaskTextShape(t);
    var after := [' '] + IntToString(t.deadline);
    ReadWordOf(t.name, after);
    assert after[1..] == IntToString(t.deadline);
    ScanIntAfterSpace(t.deadline, after);
  }

  /** The text lines of a task list, one per task. */
  function TaskTexts(ts: seq<Task>): seq<string> {
    seq(|ts|, i requires 0 <= i < |ts| => TaskText(ts[i]))
  }

  lemma SerialiseCons(ts: seq<Task>)
    requires ts != []
    ensures SerialiseTasks(ts) == TaskText(ts[0]) + ['\n'] + SerialiseTasks(ts[1..])
  {
  }

  lemma TaskTextsCons(ts: seq<Task>)
    requires ts != []
    ensures TaskTexts(ts) == [TaskText(ts[0])] + TaskTexts(ts[1..])
  {
  }

  /** The lines of a saved task list are the tasks' texts, one line per task. */
  lemma {:induction false} LinesOfSerialised(ts: seq<Task>)
    requires WellNamed(ts)
    ensures Lines(SerialiseTasks(ts)) == TaskTexts(ts)
    decreases |ts|
  {
    if ts != [] {
      var first, rest := TaskText(ts[0]), SerialiseTasks(ts[1..]);
      TaskTextShape(ts[0]);
      SerialiseCons(ts);
      LinesOf(first, rest);
      assert WellNamed(ts[1..]) by {
        forall i | 0 <= i < |ts| - 1
          ensures IsWord(ts[1..][i].name)
        {
          assert ts[1..][i] == ts[i + 1];
        }
      }
      LinesOfSerialised(ts[1..]);
      TaskTextsCons(ts);
    }
  }

  /** Writing a task list and reading the text back gives the same tasks in the same order,
      when every name is a single whitespace-free word. */
  lemma TaskFileRoundTrip(ts: seq<Task>)
    requires WellNamed(ts)
    ensures ParseTasks(SerialiseTasks(ts)) == Some(ts)
  {
    LinesOfSerialised(ts);
    var ls := Lines(SerialiseTasks(ts));
    forall i | 0 <= i < |ls|
      ensures ParseTaskLine(ls[i]) == Some(ts[i])
    {
      ParseTaskText(ts[i]);
    }
    assert seq(|ls|, i requires 0 <= i < |ls| => ParseTaskLine(ls[i]).value) == ts;
  }
}
