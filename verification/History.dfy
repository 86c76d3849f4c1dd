/** Assignment_2/solution/shell.c, the history feature: a five-line ring against the complete log of
    commands it stands for. */
module History {
  import Ring

  const HISTORY_SIZE := 5

  /** What the shell prints or does, in order. */
  datatype Event = NoCommands | Listed(number: int, command: string) | Echoed(command: string) | Executed(command: string)

  // ---------- the shell with an unbounded log ----------

  predicate Recordable(command: string) {
    command != "" && command != "history" && command != "!!"
  }

  function Record(log: seq<string>, command: string): seq<string> {
    if Recordable(command) then log + [command] else log
  }

  /** How many lines are kept of a log of n commands. */
  function Kept(n: nat): nat {
    if n < HISTORY_SIZE then n else HISTORY_SIZE
  }

  /** The last commands, newest first, each with its position in the log counted from 1. */
  function Listing(log: seq<string>): (r: seq<Event>)
    ensures log != [] ==> |r| == Kept(|log|)
  {
    if log == [] then [NoCommands]
    else seq(Kept(|log|), k requires 0 <= k < Kept(|log|) => Listed(|log| - k, log[|log| - 1 - k]))
  }

  lemma ListedAt(log: seq<string>, k: nat)
    requires k < Kept(|log|)
    ensures Listing(log)[k] == Listed(|log| - k, log[|log| - 1 - k])
  {
  }

  /** Each line shown carries its true position in the log, counted from 1, and the newest comes first. */
  lemma ListingNumbersAreTrue(log: seq<string>, k: nat)
    requires log != [] && k < |Listing(log)|
    ensures var e := Listing(log)[k];
            e.Listed? && 1 <= e.number <= |log| && log[e.number - 1] == e.command && e.number == |log| - k
  {
  }

  /** The last command once more: the new log and the events. */
  function Again(log: seq<string>): (seq<string>, seq<Event>) {
    if log == [] then (log, [NoCommands])
    else (log + [log[|log| - 1]], [Echoed(log[|log| - 1]), Executed(log[|log| - 1])])
  }

  /** What one line other than `exit` leads to: the new log and the events. */
  function Handle(log: seq<string>, line: string): (seq<string>, seq<Event>) {
    if line == "" then (log, [])
    else if line == "history" then (log, Listing(log))
    else if line == "!!" then Again(log)
    else (log + [line], [Executed(line)])
  }

  /** The shell loop on the lines the user enters: the log at the end, and what happened. */
  function Shell(log: seq<string>, lines: seq<string>): (seq<string>, seq<Event>)
    decreases lines
  {
    if lines == [] || lines[0] == "exit" then (log, [])
    else
      var (log', events) := Handle(log, lines[0]);
      var (log'', later) := Shell(log', lines[1..]);
      (log'', events + later)
  }

  // ---------- what the user relies on ----------

  /** The commands among the events. */
  function Commands(events: seq<Event>): seq<string> {
    if events == [] then []
    else (if events[0].Executed? then [events[0].command] else []) + Commands(events[1..])
  }

  lemma {:induction false} CommandsAppend(a: seq<Event>, b: seq<Event>)
    ensures Commands(a + b) == Commands(a) + Commands(b)
  {
    if a == [] {
      assert a + b == b;
    } else {
      assert (a + b)[0] == a[0] && (a + b)[1..] == a[1..] + b;
      CommandsAppend(a[1..], b);
    }
  }

  lemma {:induction false} ListsExecuteNothing(events: seq<Event>)
    requires forall k :: 0 <= k < |events| ==> !events[k].Executed?
    ensures Commands(events) == []
  {
    if events != [] {
      ListsExecuteNothing(events[1..]);
    }
  }

  lemma HandleGrows(log: seq<string>, line: string)
    ensures Handle(log, line).0 == log + Commands(Handle(log, line).1)
  {
    assert [Executed(line)][1..] == [] && Commands([Executed(line)]) == [line];
    if line == "history" {
      ListsExecuteNothing(Listing(log));
    } else if line == "!!" && log != [] {
      var command := log[|log| - 1];
      assert [Echoed(command), Executed(command)][1..] == [Executed(command)] && [Executed(command)][1..] == [];
      assert Commands([Executed(command)]) == [command];
    }
  }

  /** The log grows by exactly the commands executed, repetitions by `!!` included. */
  lemma {:induction false} LogIsWhatWasExecuted(log: seq<string>, lines: seq<string>)
    ensures Shell(log, lines).0 == log + Commands(Shell(log, lines).1)
    decreases lines
  {
    if lines != [] && lines[0] != "exit" {
      var (log', events) := Handle(log, lines[0]);
      HandleGrows(log, lines[0]);
      LogIsWhatWasExecuted(log', lines[1..]);
      CommandsAppend(events, Shell(log', lines[1..]).1);
    }
  }

  /** With the commands `done` executed before: whenever a command is echoed, it is the last one executed, and it is
      executed next. */
  ghost predicate RepeatsLast(done: seq<string>, events: seq<Event>)
    decreases events
  {
    events == [] ||
    match events[0]
    case Echoed(c) =>
      && done != [] && done[|done| - 1] == c
      && |events| > 1 && events[1] == Executed(c) && RepeatsLast(done, events[1..])
    case Executed(c) =>
      RepeatsLast(done + [c], events[1..])
    case _ =>
      RepeatsLast(done, events[1..])
  }

  lemma {:induction false} ListsRepeatNothing(done: seq<string>, events: seq<Event>)
    requires forall k :: 0 <= k < |events| ==> !events[k].Executed? && !events[k].Echoed?
    ensures RepeatsLast(done, events)
    decreases events
  {
    if events != [] {
      ListsRepeatNothing(done, events[1..]);
    }
  }

  lemma HandleRepeatsLast(log: seq<string>, line: string)
    ensures RepeatsLast(log, Handle(log, line).1)
  {
    if line == "history" {
      ListsRepeatNothing(log, Listing(log));
    } else if line == "!!" && log != [] {
      var last := log[|log| - 1];
      assert [Echoed(last), Executed(last)][1..] == [Executed(last)] && [Executed(last)][1..] == [];
      assert RepeatsLast(log + [last], []);
      assert RepeatsLast(log, [Executed(last)]);
    } else {
      assert [Executed(line)][1..] == [] && RepeatsLast(log + [line], []);
    }
  }

  lemma {:induction false} RepeatsLastAppend(done: seq<string>, now: seq<Event>, later: seq<Event>)
    requires RepeatsLast(done, now) && RepeatsLast(done + Commands(now), later)
    ensures RepeatsLast(done, now + later)
    decreases now
  {
    if now == [] {
      assert now + later == later && done + [] == done;
    } else {
      var executed := if now[0].Executed? then [now[0].command] else [];
      assert done + Commands(now) == (done + executed) + Commands(now[1..]);
      assert done + [] == done;
      RepeatsLastAppend(done + executed, now[1..], later);
      assert (now + later)[0] == now[0] && (now + later)[1..] == now[1..] + later;
      assert |now| > 1 ==> (now + later)[1] == now[1];
    }
  }

  /** The same, said of a place in the events. */
  lemma {:induction false} EchoedIsRepeated(done: seq<string>, events: seq<Event>, k: nat)
    requires RepeatsLast(done, events) && k < |events| && events[k].Echoed?
    ensures var before := done + Commands(events[..k]);
            && before != [] && before[|before| - 1] == events[k].command
            && k + 1 < |events| && events[k + 1] == Executed(events[k].command)
    decreases k
  {
    if k == 0 {
      assert done + Commands(events[..0]) == done;
    } else {
      var executed := if events[0].Executed? then [events[0].command] else [];
      assert done + [] == done;
      EchoedIsRepeated(done + executed, events[1..], k - 1);
      assert events[..k][0] == events[0] && events[..k][1..] == events[1..][..k - 1];
      assert done + Commands(events[..k]) == (done + executed) + Commands(events[1..][..k - 1]);
    }
  }

  lemma {:induction false} ShellRepeatsLast(log: seq<string>, lines: seq<string>)
    ensures RepeatsLast(log, Shell(log, lines).1)
    decreases lines
  {
    if lines != [] && lines[0] != "exit" {
      var (log', now) := Handle(log, lines[0]);
      HandleRepeatsLast(log, lines[0]);
      HandleGrows(log, lines[0]);
      ShellRepeatsLast(log', lines[1..]);
      RepeatsLastAppend(log, now, Shell(log', lines[1..]).1);
    }
  }

  /** The commands a session has executed, in order. */
  function Done(lines: seq<string>): seq<string> {
    Commands(Shell([], lines).1)
  }

  lemma {:induction false} ShellAppend(log: seq<string>, lines: seq<string>, line: string)
    requires "exit" !in lines
    ensures var (log', events) := Shell(log, lines);
            Shell(log, lines + [line]) ==
            if line == "exit" then (log', events) else (Handle(log', line).0, events + Handle(log', line).1)
    decreases lines
  {
    if lines == [] {
      assert ([] + [line])[1..] == [];
      assert Handle(log, line).1 + [] == Handle(log, line).1 == [] + Handle(log, line).1;
    } else {
      var (log', now) := Handle(log, lines[0]);
      assert (lines + [line])[0] == lines[0] && (lines + [line])[1..] == lines[1..] + [line];
      ShellAppend(log', lines[1..], line);
      var (log'', later) := Shell(log', lines[1..]);
      assert now + (later + Handle(log'', line).1) == (now + later) + Handle(log'', line).1;
    }
  }

  /** What is added when a session goes on by one line. */
  function Added(lines: seq<string>, line: string): seq<Event>
    requires "exit" !in lines
  {
    var done := Done(lines);
    if line == "exit" then [] else Handle(done, line).1
  }

  lemma SessionGrows(lines: seq<string>, line: string)
    requires "exit" !in lines
    ensures Shell([], lines + [line]).1 == Shell([], lines).1 + Added(lines, line)
  {
    LogIsWhatWasExecuted([], lines);
    assert Shell([], lines).0 == Done(lines);
    ShellAppend([], lines, line);
  }

  /** An empty line and `exit` add nothing; `history` lists the last min(5, n) of the n commands executed so far, newest
      first, each with its position, or says that there are none; `!!` echoes and executes the last of them, or says
      that there are none; any other line is executed. */
  lemma WhatALineAdds(lines: seq<string>, line: string) returns (added: seq<Event>)
    requires "exit" !in lines
    ensures Shell([], lines + [line]).1 == Shell([], lines).1 + added
    ensures line == "" || line == "exit" ==> added == []
    ensures line == "history" && Done(lines) == [] ==> added == [NoCommands]
    ensures line == "history" && Done(lines) != [] ==>
              var done := Done(lines);
              && |added| == (if |done| < 5 then |done| else 5)
              && forall k :: 0 <= k < |added| ==> added[k] == Listed(|done| - k, done[|done| - 1 - k])
    ensures line == "!!" && Done(lines) == [] ==> added == [NoCommands]
    ensures line == "!!" && Done(lines) != [] ==>
              var last := Done(lines)[|Done(lines)| - 1]; added == [Echoed(last), Executed(last)]
    ensures line != "" && line != "exit" && line != "history" && line != "!!" ==> added == [Executed(line)]
  {
    SessionGrows(lines, line);
    added := Added(lines, line);
    var done := Done(lines);
    forall k | 0 <= k < Kept(|done|)
      ensures Listing(done)[k] == Listed(|done| - k, done[|done| - 1 - k])
    {
      ListedAt(done, k);
    }
  }

  /** Nothing happens after `exit`. */
  lemma {:induction false} NothingAfterExit(log: seq<string>, lines: seq<string>, more: seq<string>)
    requires "exit" !in lines
    ensures Shell(log, lines + (["exit"] + more)) == Shell(log, lines)
    decreases lines
  {
    if lines == [] {
      assert [] + (["exit"] + more) == ["exit"] + more;
    } else {
      assert (lines + (["exit"] + more))[0] == lines[0];
      assert (lines + (["exit"] + more))[1..] == lines[1..] + (["exit"] + more);
      NothingAfterExit(Handle(log, lines[0]).0, lines[1..], more);
    }
  }

  lemma ShellFrom(log: seq<string>, lines: seq<string>, i: nat)
    requires i < |lines| && lines[i] != "exit"
    ensures var (log', events) := Handle(log, lines[i]);
            Shell(log, lines[i..]) == (Shell(log', lines[i + 1..]).0, events + Shell(log', lines[i + 1..]).1)
  {
  }

  // ---------- the ring ----------

  /** Where the i-th oldest line kept is: the oldest is at 0, or where the next one goes once the ring is full. */
  function Place(next: nat, count: nat, i: nat): (r: nat)
    requires next < HISTORY_SIZE && i < count <= HISTORY_SIZE
    ensures r < HISTORY_SIZE
  {
    if count < HISTORY_SIZE then i
    else if next + i < HISTORY_SIZE then next + i
    else next + i - HISTORY_SIZE
  }

  /** The index print_history computes. */
  lemma PlaceComputed(next: nat, count: nat, i: nat)
    requires next < HISTORY_SIZE && i < count <= HISTORY_SIZE && (count < HISTORY_SIZE ==> next == count)
    ensures ((next - count + HISTORY_SIZE) % HISTORY_SIZE + i) % HISTORY_SIZE == Place(next, count, i)
  {
  }

  /** The index execute_last_command computes; it is not where the repeated command is written. */
  lemma NewestPlace(next: nat, count: nat)
    requires next < HISTORY_SIZE && 0 < count <= HISTORY_SIZE && (count < HISTORY_SIZE ==> next == count)
    ensures (next - 1 + HISTORY_SIZE) % HISTORY_SIZE == Place(next, count, count - 1) != next
  {
  }

  /** The ring holds the last min(5, total) commands of the log. */
  ghost predicate Keeps(ring: seq<string>, next: nat, count: nat, log: seq<string>) {
    && |ring| == HISTORY_SIZE && count == Kept(|log|)
    && next < HISTORY_SIZE && (count < HISTORY_SIZE ==> next == count)
    && forall i :: 0 <= i < count ==> ring[Place(next, count, i)] == log[|log| - count + i]
  }

  lemma KeepsAppended(ring: seq<string>, next: nat, count: nat, log: seq<string>, command: string)
    requires Keeps(ring, next, count, log)
    ensures Keeps(ring[next := command], Ring.Next(next, HISTORY_SIZE), Kept(|log| + 1), log + [command])
  {
    var next', count', log' := Ring.Next(next, HISTORY_SIZE), Kept(|log| + 1), log + [command];
    forall i | 0 <= i < count'
      ensures ring[next := command][Place(next', count', i)] == log'[|log'| - count' + i]
    {
      if i < count' - 1 {
        var before := if count < HISTORY_SIZE then i else i + 1;
        assert Place(next', count', i) == Place(next, count, before) != next;
      }
    }
  }

  /** What print_history shows for the i-th oldest line when `total` commands have been entered. */
  function PrintedAs(total: nat, i: nat, command: string): Event {
    if total > 5 then Listed(total + (i - 4), command) else Listed(i + 1, command)
  }

  /** The number and text of the i-th oldest line kept are those of the listing of the log. */
  lemma PrintedLine(log: seq<string>, i: nat)
    requires i < Kept(|log|)
    ensures PrintedAs(|log|, i, log[|log| - Kept(|log|) + i]) == Listing(log)[Kept(|log|) - 1 - i]
  {
    ListedAt(log, Kept(|log|) - 1 - i);
  }

  /** What has happened and what the remaining lines will do is the whole. */
  ghost predicate StillToCome(whole: (seq<string>, seq<Event>), log: seq<string>, events: seq<Event>, rest: seq<string>) {
    Shell(log, rest).0 == whole.0 && events + Shell(log, rest).1 == whole.1
  }

  lemma LineDone(whole: (seq<string>, seq<Event>), log: seq<string>, events: seq<Event>, lines: seq<string>, i: nat,
                 log': seq<string>, now: seq<Event>)
    requires i < |lines| && lines[i] != "exit" && StillToCome(whole, log, events, lines[i..])
    requires (log', now) == Handle(log, lines[i])
    ensures StillToCome(whole, log', events + now, lines[i + 1..])
  {
    ShellFrom(log, lines, i);
    assert events + (now + Shell(log', lines[i + 1..]).1) == (events + now) + Shell(log', lines[i + 1..]).1;
  }

  lemma ExitEnds(whole: (seq<string>, seq<Event>), log: seq<string>, events: seq<Event>, lines: seq<string>, i: nat)
    requires i < |lines| && lines[i] == "exit" && StillToCome(whole, log, events, lines[i..])
    ensures StillToCome(whole, log, events, [])
  {
    assert lines[i..][0] == "exit";
  }

  lemma NothingToCome(whole: (seq<string>, seq<Event>), log: seq<string>, events: seq<Event>, rest: seq<string>)
    requires StillToCome(whole, log, events, rest) && rest == []
    ensures (log, events) == whole
  {
    assert events + [] == events;
  }

  class HistoryShell {
    const history: array<string>
    var historyCount: nat
    var historyNext: nat
    var totalCommandCount: nat
    ghost var log: seq<string>

    ghost predicate Valid()
      reads this, history
    {
      && totalCommandCount == |log|
      && Keeps(history[..], historyNext, historyCount, log)
      && forall c :: c in log ==> Recordable(c)
    }

    constructor ()
      ensures Valid() && fresh(history) && log == []
    {
      history := new string[HISTORY_SIZE](i => "");
      historyCount, historyNext, totalCommandCount := 0, 0, 0;
      log := [];
    }

    method AddToHistory(command: string)
      requires Valid()
      modifies this, history
      ensures Valid() && log == Record(old(log), command)
      ensures forall k :: 0 <= k < HISTORY_SIZE && k != old(historyNext) ==> history[k] == old(history[k])
    {
      if command == "" || command == "history" || command == "!!" {
        return;
      }
      KeepsAppended(history[..], historyNext, historyCount, log, command);
      history[historyNext] := command;
      historyNext := (historyNext + 1) % HISTORY_SIZE;
      if historyCount < HISTORY_SIZE {
        historyCount := historyCount + 1;
      }
      totalCommandCount := totalCommandCount + 1;
      log := log + [command];
    }

    method PrintHistory() returns (events: seq<Event>)
      requires Valid()
      ensures events == Listing(log)
    {
      if historyCount == 0 {
        return [NoCommands];
      }
      events := [];
      var start := (historyNext - historyCount + HISTORY_SIZE) % HISTORY_SIZE;
      for i := historyCount downto 0
        invariant events == Listing(log)[..historyCount - i]
      {
        var index := (start + i) % HISTORY_SIZE;
        PlaceComputed(historyNext, historyCount, i);
        PrintedLine(log, i);
        assert history[index] == log[|log| - historyCount + i];
        events := events + [PrintedAs(totalCommandCount, i, history[index])];
      }
    }

    method ExecuteLastCommand() returns (events: seq<Event>)
      requires Valid()
      modifies this, history
      ensures Valid() && (log, events) == Again(old(log))
    {
      if historyCount == 0 {
        return [NoCommands];
      }
      var lastIndex := (historyNext - 1 + HISTORY_SIZE) % HISTORY_SIZE;
      NewestPlace(historyNext, historyCount);
      var echoed := history[lastIndex];
      assert echoed == log[|log| - 1];
      AddToHistory(history[lastIndex]);
      events := [Echoed(echoed), Executed(history[lastIndex])];
    }

    /** The body of the shell loop for a line other than `exit`. */
    method HandleLine(line: string) returns (events: seq<Event>)
      requires Valid()
      modifies this, history
      ensures Valid() && (log, events) == Handle(old(log), line)
    {
      if line == "" {
        events := [];
      } else if line == "history" {
        events := PrintHistory();
      } else if line == "!!" {
        events := ExecuteLastCommand();
      } else {
        AddToHistory(line);
        events := [Executed(line)];
      }
    }

    method StartShell(lines: seq<string>) returns (events: seq<Event>)
      requires Valid()
      modifies this, history
      ensures Valid() && (log, events) == Shell(old(log), lines)
    {
      ghost var whole := Shell(log, lines);
      events := [];
      var i, shouldRun := 0, true;
      assert lines[0..] == lines && [] + whole.1 == whole.1;
      while shouldRun && i < |lines|
        invariant 0 <= i <= |lines| && Valid()
        invariant StillToCome(whole, log, events, if shouldRun then lines[i..] else [])
        decreases |lines| - i, shouldRun
      {
        var line := lines[i];
        if line == "exit" {
          shouldRun := false;
          ExitEnds(whole, log, events, lines, i);
        } else {
          ghost var before, already := log, events;
          var now := HandleLine(line);
          events := events + now;
          LineDone(whole, before, already, lines, i, log, now);
          i := i + 1;
        }
      }
      NothingToCome(whole, log, events, if shouldRun then lines[i..] else []);
    }
  }

  /** A session from an empty history. */
  method Session(lines: seq<string>) returns (events: seq<Event>)
    ensures events == Shell([], lines).1 && RepeatsLast([], events)
  {
    var shell := new HistoryShell();
    events := shell.StartShell(lines);
    ShellRepeatsLast([], lines);
  }
}
