/** The state `main` keeps across one run of main.cpp: the task list in memory, the text
    of the task file and the text of `date.txt`. Files are modelled by their contents;
    `saveTasks` and `saveCurrentDate` become assignments to those fields. */
module Session {
  import opened Text
  import opened Calendar
  import opened Tasks
  import opened Commands

  // ---------------------------------------------------------------------------
  // The stored run date

  /** `loadLastDate`: the first line of `date.txt`, or today's date when that is empty
      (a missing file reads as empty text). */
  function StoredDate(dateText: string, today: Date): string
    requires Formattable(today)
  {
    var line := FirstLine(dateText);
    if line == "" then FormatDate(today) else line
  }

  /** The date file holds nothing, or a date `daysBetween` can read. */
  predicate DateFileReadable(dateText: string) {
    var line := FirstLine(dateText);
    line == "" || Readable(line)
  }

  /** `daysPassed` in `updateDeadlines`: days from the stored date to today. */
  function ElapsedDays(dateText: string, today: Date): int
    requires Formattable(today) && DateFileReadable(dateText)
  {
    DaysBetweenFormatted(today, today);
    DaysBetweenTexts(StoredDate(dateText, today), FormatDate(today))
  }

  /** A first run (no stored date) counts no elapsed days. */
  lemma FirstRunElapsesNothing(dateText: string, today: Date)
    requires Formattable(today) && FirstLine(dateText) == ""
    ensures ElapsedDays(dateText, today) == 0
  {
    DaysBetweenFormatted(today, today);
    DaysBetweenAlgebra(today, today, today);
  }

  /** A date file written on day `d` gives, on day `today`, the calendar distance between
      them; so decay happens exactly when `today` is later than `d`. */
  lemma ElapsedSinceSaved(d: Date, today: Date)
    requires Formattable(d) && Formattable(today)
    ensures DateFileReadable(FormatDate(d))
    ensures ElapsedDays(FormatDate(d), today) == DaysBetween(d, today)
    ensures ElapsedDays(FormatDate(d), today) > 0 <==> Before(d, today)
  {
    FormatDateNoBreak(d);
    FirstLineWhole(FormatDate(d));
    FormatDateLength(d);
    DaysBetweenFormatted(d, today);
    DaysBetweenSign(d, today);
  }

  /** Starting twice on the same day decays the deadlines only once. */
  lemma SameDayRerunElapsesNothing(today: Date)
    requires Formattable(today)
    ensures DateFileReadable(FormatDate(today))
    ensures ElapsedDays(FormatDate(today), today) == 0
  {
    ElapsedSinceSaved(today, today);
    DaysBetweenAlgebra(today, today, today);
  }

  // ---------------------------------------------------------------------------
  // The tracker

  class Tracker {
    /** `tasks` in `main`. */
    var tasks: seq<Task>
    /** The contents of the task file. */
    var taskFile: string
    /** The contents of `date.txt`. */
    var dateFile: string

    /** The task file reads back as the list in memory: what every save keeps. */
    predicate Valid()
      reads this
    {
      WellNamed(tasks) && ParseTasks(taskFile) == Some(tasks)
    }

    /** `loadTasks` on the task file's text (empty text when the file is missing). */
    constructor Load(taskText: string, dateText: string)
      requires ParseTasks(taskText).Some?
      ensures tasks == ParseTasks(taskText).value
      ensures taskFile == taskText && dateFile == dateText
      ensures Valid()
    {
      var loaded := LoadTasks(taskText);
      ParsedTasksWellNamed(taskText);
      tasks := loaded.value;
      taskFile := taskText;
      dateFile := dateText;
    }

    /** `saveTasks`: one `name deadline` line per task, written in list order. The file
        then reads back as the list. */
    method SaveTasks()
      requires WellNamed(tasks)
      modifies this
      ensures taskFile == SerialiseTasks(tasks)
      ensures tasks == old(tasks) && dateFile == old(dateFile)
      ensures Valid()
    {
      var text := WriteTasks(tasks);
      TaskFileRoundTrip(tasks);
      taskFile := text;
    }

    /** `updateDeadlines`: when days have passed since the stored date, every deadline
        drops by that many days, floored at 0, and the list and today's date are saved;
        otherwise nothing changes. */
    method UpdateDeadlines(today: Date) returns (daysPassed: int)
      requires Valid() && Formattable(today) && DateFileReadable(dateFile)
      modifies this
      ensures daysPassed == ElapsedDays(old(dateFile), today)
      ensures tasks == Decayed(old(tasks), daysPassed)
      ensures taskFile == (if daysPassed > 0 then SerialiseTasks(tasks) else old(taskFile))
      ensures dateFile == (if daysPassed > 0 then FormatDate(today) else old(dateFile))
      ensures Valid()
    {
      var lastDate := StoredDate(dateFile, today);
      var currentDate := FormatDate(today);
      DaysBetweenFormatted(today, today);
      daysPassed := DaysBetweenTexts(lastDate, currentDate);
      if daysPassed <= 0 {
        return;
      }
      DecayDeadlines(daysPassed);
      DecayedWellNamed(old(tasks), daysPassed);
      SaveTasks();
      dateFile := currentDate;
    }

    /** The loop of `updateDeadlines`: `task.deadline = max(0, task.deadline - daysPassed)`
        on each task in place. */
    method DecayDeadlines(daysPassed: int)
      requires daysPassed > 0
      modifies this
      ensures tasks == Decayed(old(tasks), daysPassed)
      ensures taskFile == old(taskFile) && dateFile == old(dateFile)
    {
      var i := 0;
      while i < |tasks|
        invariant 0 <= i <= |tasks| == |old(tasks)|
        invariant forall j :: 0 <= j < i ==>
                    tasks[j] == old(tasks)[j].(deadline := FloorAtZero(old(tasks)[j].deadline - daysPassed))
        invariant forall j :: i <= j < |tasks| ==> tasks[j] == old(tasks)[j]
        invariant taskFile == old(taskFile) && dateFile == old(dateFile)
      {
        tasks := tasks[i := tasks[i].(deadline := FloorAtZero(tasks[i].deadline - daysPassed))];
        i := i + 1;
      }
    }

    /** Lines 215-218 of `main`: decay the loaded list, then store today's date whether or
        not any day has passed. */
    method Startup(today: Date) returns (daysPassed: int)
      requires Valid() && Formattable(today) && DateFileReadable(dateFile)
      modifies this
      ensures daysPassed == ElapsedDays(old(dateFile), today)
      ensures tasks == Decayed(old(tasks), daysPassed)
      ensures taskFile == (if daysPassed > 0 then SerialiseTasks(tasks) else old(taskFile))
      ensures dateFile == FormatDate(today)
      ensures Valid()
    {
      daysPassed := UpdateDeadlines(today);
      dateFile := FormatDate(today);
    }

    /** `addTask`: append the entered task and save the list. `cin >> task.name` reads a
        single whitespace-free word. */
    method AddTask(t: Task)
      requires Valid() && IsWord(t.name)
      modifies this
      ensures tasks == old(tasks) + [t]
      ensures taskFile == SerialiseTasks(tasks) && dateFile == old(dateFile)
      ensures Valid()
    {
      tasks := tasks + [t];
      assert WellNamed(tasks) by {
        forall j | 0 <= j < |tasks|
          ensures IsWord(tasks[j].name)
        {
          if j < |old(tasks)| {
            assert tasks[j] == old(tasks)[j];
          }
        }
      }
      SaveTasks();
    }

    /** `remove_if`: the tasks not named `name` are moved, in order, to the front; the
        returned position ends them, and the list keeps its length. */
    method RemoveIf(name: string) returns (end: nat)
      modifies this
      ensures |tasks| == |old(tasks)| && end <= |tasks|
      ensures tasks[..end] == Removed(old(tasks), name)
      ensures taskFile == old(taskFile) && dateFile == old(dateFile)
    {
      var i, j := 0, 0;
      while i < |tasks|
        invariant 0 <= j <= i <= |tasks| == |old(tasks)|
        invariant tasks[..j] == Removed(old(tasks)[..i], name)
        invariant tasks[i..] == old(tasks)[i..]
        invariant taskFile == old(taskFile) && dateFile == old(dateFile)
      {
        RemovedStep(old(tasks), i, name);
        assert tasks[i] == old(tasks)[i] by { assert tasks[i..][0] == old(tasks)[i..][0]; }
        var prefix := tasks[..j];
        if tasks[i].name != name {
          tasks := tasks[j := tasks[i]];
          assert tasks[..j + 1] == prefix + [old(tasks)[i]];
          j := j + 1;
        } else {
          assert prefix + [] == prefix;
        }
        assert tasks[i + 1..] == old(tasks)[i + 1..] by {
          forall k | i + 1 <= k < |tasks|
            ensures tasks[k] == old(tasks)[k]
          {
            assert tasks[k] == old(tasks)[i..][k - i];
          }
        }
        i := i + 1;
      }
      assert old(tasks)[..i] == old(tasks);
      end := j;
    }

    /** `deleteTask`: after `remove_if`, the tail is erased and the list saved only when
        something matched; otherwise the list and the file stay as they were. */
    method DeleteTask(name: string) returns (found: bool)
      requires Valid()
      modifies this
      ensures found <==> HasName(old(tasks), name)
      ensures tasks == Removed(old(tasks), name)
      ensures taskFile == (if found then SerialiseTasks(tasks) else old(taskFile))
      ensures dateFile == old(dateFile)
      ensures Valid()
    {
      var end := RemoveIf(name);
      RemovedShorter(old(tasks), name);
      found := end < |tasks|;
      if found {
        tasks := tasks[..end];
        RemovedWellNamed(old(tasks), name);
        SaveTasks();
      } else {
        assert tasks[..end] == tasks;
        RemovedNothing(old(tasks), name);
      }
    }

    /** One pass of the command loop on the line typed at the prompt. `entered` is what
        `addTask` reads from the console. The loop goes on unless the line is `exit`. */
    method Execute(line: string, entered: Task) returns (keepGoing: bool)
      requires Valid() && IsWord(entered.name)
      modifies this
      ensures keepGoing <==> Classify(line) != Exit
      ensures Classify(line) == Add ==> tasks == old(tasks) + [entered]
      ensures Classify(line).Done? ==> tasks == Removed(old(tasks), Classify(line).name)
      ensures !(Classify(line) == Add || Classify(line).Done?) ==> tasks == old(tasks)
      ensures taskFile == (if Classify(line) == Add
                             || (Classify(line).Done? && HasName(old(tasks), Classify(line).name))
                           then SerialiseTasks(tasks) else old(taskFile))
      ensures dateFile == old(dateFile)
      ensures Valid()
    {
      keepGoing := true;
      match Classify(line)
      case Add =>
        AddTask(entered);
      case Done(name) =>
        var _ := DeleteTask(name);
      case Exit =>
        keepGoing := false;
      case _ =>
    }
  }

  /** One more task joins the removed prefix, unless it carries the name. */
  lemma RemovedStep(ts: seq<Task>, i: int, name: string)
    requires 0 <= i < |ts|
    ensures Removed(ts[..i + 1], name) == Removed(ts[..i], name) + (if ts[i].name == name then [] else [ts[i]])
  {
    assert ts[..i + 1][..i] == ts[..i];
  }

  /** Decay renames nothing. */
  lemma DecayedWellNamed(ts: seq<Task>, daysPassed: int)
    requires WellNamed(ts)
    ensures WellNamed(Decayed(ts, daysPassed))
  {
    if daysPassed > 0 {
      DecayShape(ts, daysPassed);
    }
  }

  /** Removal keeps only tasks of the list, so their names stay single words. */
  lemma RemovedWellNamed(ts: seq<Task>, name: string)
    requires WellNamed(ts)
    ensures WellNamed(Removed(ts, name))
  {
    RemovedContents(ts, name);
    var r := Removed(ts, name);
    forall k | 0 <= k < |r|
      ensures IsWord(r[k].name)
    {
      assert multiset(r)[r[k]] > 0;
      assert r[k] in ts;
    }
  }
}
