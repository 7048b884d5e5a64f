/**
 The coordinator of the asynchronous Bayesian search (src/bayesian_optimize.py),
 as a state machine without threads, processes or locks.

 `result_handler` processes one result at a time under a lock: it registers
 the result with the optimizer, then asks the optimizer for suggestions until
 one whose rounded form has not been issued before, puts that one on the task
 queue and counts it; when the count has reached the budget it sets the done
 flag instead. The optimizer's answers are a given stream of suggestions;
 the stream running out while every answer is a duplicate stands for
 `result_handler` asking forever.
 */
module Scheduler {
  import opened Wrappers
  import Canonical
  import Worker

  type Fingerprint = seq<Canonical.Item>

  /** What the optimizer was told (`register`) and what it answered (`suggest`), in order. */
  datatype Call = Register(observation: Worker.Observation) | Suggest(answer: Canonical.Dict)

  /**
   The shared state: `issued_params_set`, `task_count.value`,
   `task_done_event`, everything ever put on `task_queue` in order (workers
   take tasks off the front concurrently; that is not modelled), and the
   optimizer's call history.
   */
  datatype State = State(
    issued: set<Fingerprint>,
    count: nat,
    done: bool,
    queue: seq<Canonical.Dict>,
    calls: seq<Call>)

  /** The outcome of processing one result. */
  datatype Step =
    | Handled(state: State, asked: nat)   // returned, having consumed `asked` suggestions
    | Stalled                              // every remaining suggestion was a duplicate: `result_handler` never returns

  /** The number of tasks the handler may issue: `total_task_num`, or none when it is not positive. */
  function Budget(total: int): nat {
    if total > 0 then total else 0
  }

  /** `round_dic_data(new_params)`. */
  function Candidate(suggestion: Canonical.Dict): Canonical.Dict {
    Canonical.RoundDict(suggestion, Canonical.DefaultPrecision)
  }

  /** `params_to_tuple(round_new_params)`. */
  function Key(suggestion: Canonical.Dict): Fingerprint {
    Canonical.Fingerprint(Candidate(suggestion))
  }

  predicate Duplicate(issued: set<Fingerprint>, suggestion: Canonical.Dict) {
    Key(suggestion) in issued
  }

  /** The optimizer asked for `answers`, one `suggest` call each, in order. */
  function Suggests(answers: seq<Canonical.Dict>): (calls: seq<Call>)
    ensures |calls| == |answers|
    decreases |answers|
  {
    if |answers| == 0 then [] else [Suggest(answers[0])] + Suggests(answers[1..])
  }

  /** The `while task_count.value < total_task_num: ... else: task_done_event.set()` of lines 65-80. */
  function Issue(st: State, total: int, suggestions: seq<Canonical.Dict>): (s: Step)
    ensures s.Handled? ==> s.asked <= |suggestions|
    decreases |suggestions|
  {
    if st.count >= total then Handled(st.(done := true), 0)
    else if |suggestions| == 0 then Stalled
    else
      var asked := st.(calls := st.calls + [Suggest(suggestions[0])]);
      var candidate := Candidate(suggestions[0]);
      var key := Canonical.Fingerprint(candidate);
      if key !in st.issued then
        Handled(asked.(queue := st.queue + [candidate], issued := st.issued + {key}, count := st.count + 1), 1)
      else
        match Issue(asked, total, suggestions[1..])
        case Stalled => Stalled
        case Handled(next, n) => Handled(next, n + 1)
  }

  /** When the budget is spent on entry the flag is set and nothing else changes (the `else` branch). */
  lemma IssueWhenSpent(st: State, total: int, suggestions: seq<Canonical.Dict>)
    requires st.count >= total
    ensures Issue(st, total, suggestions) == Handled(st.(done := true), 0)
  {
  }

  /** The loop only spins forever when the budget is open and every suggestion is a duplicate. */
  lemma {:induction false} IssueStallsIff(st: State, total: int, suggestions: seq<Canonical.Dict>)
    ensures Issue(st, total, suggestions).Stalled?
        <==> st.count < total && forall j :: 0 <= j < |suggestions| ==> Duplicate(st.issued, suggestions[j])
    decreases |suggestions|
  {
    if st.count < total && |suggestions| > 0 && Duplicate(st.issued, suggestions[0]) {
      var asked := st.(calls := st.calls + [Suggest(suggestions[0])]);
      IssueStallsIff(asked, total, suggestions[1..]);
      assert forall j :: 1 <= j < |suggestions| ==> suggestions[j] == suggestions[1..][j - 1];
    }
  }

  /**
   With the budget open, a returning loop stopped at the first suggestion
   that is not a duplicate, having skipped every duplicate before it.
   */
  lemma {:induction false} IssueFirstNovel(st: State, total: int, suggestions: seq<Canonical.Dict>)
    requires st.count < total
    requires Issue(st, total, suggestions).Handled?
    ensures var n := Issue(st, total, suggestions).asked;
      && 1 <= n <= |suggestions|
      && (forall j :: 0 <= j < n - 1 ==> Duplicate(st.issued, suggestions[j]))
      && !Duplicate(st.issued, suggestions[n - 1])
    decreases |suggestions|
  {
    if Duplicate(st.issued, suggestions[0]) {
      var asked := st.(calls := st.calls + [Suggest(suggestions[0])]);
      IssueFirstNovel(asked, total, suggestions[1..]);
      assert forall j :: 1 <= j < |suggestions| ==> suggestions[j] == suggestions[1..][j - 1];
    }
  }

  /**
   ... and that suggestion's fingerprint is the one recorded as issued ...
   */
  lemma {:induction false} IssueRecords(st: State, total: int, suggestions: seq<Canonical.Dict>)
    requires st.count < total
    requires Issue(st, total, suggestions).Handled?
    ensures var s := Issue(st, total, suggestions);
      1 <= s.asked && s.state.issued == st.issued + {Key(suggestions[s.asked - 1])}
    decreases |suggestions|
  {
    IssueFirstNovel(st, total, suggestions);
    if Duplicate(st.issued, suggestions[0]) {
      var asked := st.(calls := st.calls + [Suggest(suggestions[0])]);
      IssueRecords(asked, total, suggestions[1..]);
      var n := Issue(asked, total, suggestions[1..]).asked;
      assert suggestions[1..][n - 1] == suggestions[n];
    }
  }

  /**
   ... the count went up by one and the flag was left alone (`break` skips
   the `else`) ...
   */
  lemma {:induction false} IssueCounts(st: State, total: int, suggestions: seq<Canonical.Dict>)
    requires st.count < total
    requires Issue(st, total, suggestions).Handled?
    ensures var s := Issue(st, total, suggestions); s.state.count == st.count + 1 && s.state.done == st.done
    decreases |suggestions|
  {
    if Duplicate(st.issued, suggestions[0]) {
      var asked := st.(calls := st.calls + [Suggest(suggestions[0])]);
      IssueCounts(asked, total, suggestions[1..]);
    }
  }

  /**
   ... the suggestion, rounded, is the one task put on the queue ...
   */
  lemma {:induction false} IssueQueues(st: State, total: int, suggestions: seq<Canonical.Dict>)
    requires st.count < total
    requires Issue(st, total, suggestions).Handled?
    ensures var s := Issue(st, total, suggestions);
      1 <= s.asked && s.state.queue == st.queue + [Candidate(suggestions[s.asked - 1])]
    decreases |suggestions|
  {
    IssueFirstNovel(st, total, suggestions);
    if Duplicate(st.issued, suggestions[0]) {
      var asked := st.(calls := st.calls + [Suggest(suggestions[0])]);
      IssueQueues(asked, total, suggestions[1..]);
      var n := Issue(asked, total, suggestions[1..]).asked;
      assert suggestions[1..][n - 1] == suggestions[n];
    }
  }

  /**
   ... and the optimizer was asked exactly the consumed suggestions, in order.
   */
  lemma {:induction false} IssueAsks(st: State, total: int, suggestions: seq<Canonical.Dict>)
    requires st.count < total
    requires Issue(st, total, suggestions).Handled?
    ensures var s := Issue(st, total, suggestions);
      1 <= s.asked <= |suggestions| && s.state.calls == st.calls + Suggests(suggestions[..s.asked])
    decreases |suggestions|
  {
    if Duplicate(st.issued, suggestions[0]) {
      var asked := st.(calls := st.calls + [Suggest(suggestions[0])]);
      IssueSkips(st, total, suggestions);
      var r := Issue(asked, total, suggestions[1..]);
      IssueAsks(asked, total, suggestions[1..]);
      SuggestsCons(suggestions, r.asked);
    } else {
      assert Suggests(suggestions[..1]) == [Suggest(suggestions[0])];
    }
  }

  /** A duplicate suggestion is asked for and skipped; the loop goes on with the rest of the stream. */
  lemma IssueSkips(st: State, total: int, suggestions: seq<Canonical.Dict>)
    requires st.count < total
    requires |suggestions| > 0 && Duplicate(st.issued, suggestions[0])
    ensures var asked := st.(calls := st.calls + [Suggest(suggestions[0])]);
      Issue(st, total, suggestions)
        == match Issue(asked, total, suggestions[1..])
           case Stalled => Stalled
           case Handled(next, n) => Handled(next, n + 1)
  {
  }

  lemma SuggestsCons(suggestions: seq<Canonical.Dict>, n: nat)
    requires n < |suggestions|
    ensures [Suggest(suggestions[0])] + Suggests(suggestions[1..][..n]) == Suggests(suggestions[..n + 1])
  {
    assert suggestions[..n + 1][1..] == suggestions[1..][..n];
  }

  /** Lines 59-80 for one result `{"params": ..., "target": ...}`: register it, then issue. */
  function HandleResult(st: State, total: int, observation: Worker.Observation, suggestions: seq<Canonical.Dict>): (s: Step)
    ensures s.Handled? ==> s.asked <= |suggestions|
  {
    Issue(st.(calls := st.calls + [Register(observation)]), total, suggestions)
  }

  /**
   The result is registered before anything is asked of the optimizer, and
   the optimizer is then asked exactly the suggestions the handler consumed.
   */
  lemma HandleResultRegistersFirst(st: State, total: int, observation: Worker.Observation, suggestions: seq<Canonical.Dict>)
    requires HandleResult(st, total, observation, suggestions).Handled?
    ensures var r := HandleResult(st, total, observation, suggestions);
      r.asked <= |suggestions| && r.state.calls == st.calls + [Register(observation)] + Suggests(suggestions[..r.asked])
  {
    var registered := st.(calls := st.calls + [Register(observation)]);
    if st.count < total {
      IssueAsks(registered, total, suggestions);
    } else {
      assert suggestions[..0] == [];
    }
  }

  /** With the budget spent, a result is registered and the flag set; no task is issued. */
  lemma HandleResultSpent(st: State, total: int, observation: Worker.Observation, suggestions: seq<Canonical.Dict>)
    requires st.count >= total
    ensures HandleResult(st, total, observation, suggestions)
         == Handled(st.(done := true, calls := st.calls + [Register(observation)]), 0)
  {
  }

  /**
   With the budget open, a returning handler put exactly one new task on the
   queue: the first suggestion whose rounded fingerprint had not been issued,
   rounded to four decimals. Its fingerprint joins the issued set, the count
   goes up by one and the flag is left as it was.
   */
  lemma HandleResultIssues(st: State, total: int, observation: Worker.Observation, suggestions: seq<Canonical.Dict>)
    requires st.count < total
    requires HandleResult(st, total, observation, suggestions).Handled?
    ensures var r := HandleResult(st, total, observation, suggestions);
      && 1 <= r.asked <= |suggestions|
      && (forall j :: 0 <= j < r.asked - 1 ==> Duplicate(st.issued, suggestions[j]))
      && !Duplicate(st.issued, suggestions[r.asked - 1])
      && r.state.queue == st.queue + [Candidate(suggestions[r.asked - 1])]
      && r.state.issued == st.issued + {Key(suggestions[r.asked - 1])}
      && r.state.count == st.count + 1
      && r.state.done == st.done
  {
    var registered := st.(calls := st.calls + [Register(observation)]);
    IssueFirstNovel(registered, total, suggestions);
    IssueRecords(registered, total, suggestions);
    IssueCounts(registered, total, suggestions);
    IssueQueues(registered, total, suggestions);
  }

  /**
   The result that lets the count reach the budget does not set the flag
   (the loop `break`s before its `else`); the next result does, and issues
   nothing.
   */
  lemma FlagOnNextResult(st: State, total: int, first: Worker.Observation, suggestions: seq<Canonical.Dict>,
                         second: Worker.Observation, more: seq<Canonical.Dict>)
    requires st.count + 1 == total
    requires HandleResult(st, total, first, suggestions).Handled?
    ensures var mid := HandleResult(st, total, first, suggestions).state;
      && mid.count == total
      && mid.done == st.done
      && HandleResult(mid, total, second, more) == Handled(mid.(done := true, calls := mid.calls + [Register(second)]), 0)
  {
    HandleResultIssues(st, total, first, suggestions);
  }

  /** The fingerprints of a run of tasks, in order. */
  function Prints(tasks: seq<Canonical.Dict>): (r: seq<Fingerprint>)
    ensures |r| == |tasks|
    decreases |tasks|
  {
    if |tasks| == 0 then []
    else Prints(tasks[..|tasks| - 1]) + [Canonical.Fingerprint(tasks[|tasks| - 1])]
  }

  lemma {:induction false} PrintsAt(tasks: seq<Canonical.Dict>, i: nat)
    requires i < |tasks|
    ensures Prints(tasks)[i] == Canonical.Fingerprint(tasks[i])
    decreases |tasks|
  {
    if i < |tasks| - 1 {
      var init := tasks[..|tasks| - 1];
      PrintsAt(init, i);
      assert init[i] == tasks[i];
    }
  }

  lemma PrintsAppend(tasks: seq<Canonical.Dict>, task: Canonical.Dict)
    ensures Prints(tasks + [task]) == Prints(tasks) + [Canonical.Fingerprint(task)]
  {
    assert (tasks + [task])[..|tasks|] == tasks;
  }

  lemma ElementsAppend<T>(s: seq<T>, x: T)
    ensures Elements(s + [x]) == Elements(s) + {x}
  {
  }

  lemma PrintsApart(tasks: seq<Canonical.Dict>, i: nat, j: nat)
    requires NoRepeats(Prints(tasks)) && i < j < |tasks|
    ensures Canonical.Fingerprint(tasks[i]) != Canonical.Fingerprint(tasks[j])
  {
    PrintsAt(tasks, i);
    PrintsAt(tasks, j);
  }

  /** No element occurs twice. */
  predicate NoRepeats<T(==)>(s: seq<T>) {
    forall i, j :: 0 <= i < j < |s| ==> s[i] != s[j]
  }

  function Elements<T(==)>(s: seq<T>): set<T> {
    set x | x in s
  }

  lemma NoRepeatsAppend<T>(s: seq<T>, x: T)
    requires NoRepeats(s) && x !in s
    ensures NoRepeats(s + [x])
  {
    var t := s + [x];
    forall i, j | 0 <= i < j < |t| ensures t[i] != t[j] {
      assert t[i] == s[i];
      if j < |s| {
        assert t[j] == s[j];
      }
    }
  }

  /**
   What the handler keeps true of the shared state once `seeded` initial
   tasks are on the queue: the count stays within the budget and counts
   exactly the tasks the handler put; the issued set is exactly their
   fingerprints, which never repeat; and the flag is only up once the budget is spent.
   */
  predicate Consistent(st: State, seeded: nat, total: int) {
    && st.count <= Budget(total)
    && |st.queue| == seeded + st.count
    && (st.done ==> st.count == Budget(total))
    && st.issued == Elements(Prints(st.queue[seeded..]))
    && NoRepeats(Prints(st.queue[seeded..]))
  }

  /** Every task the handler put is on the four-decimal grid. */
  predicate TasksRounded(st: State, seeded: nat) {
    forall i :: seeded <= i < |st.queue| ==> Canonical.RoundedDict(st.queue[i], Canonical.DefaultPrecision)
  }

  /** The issuing step keeps the handler's part of the queue consistent. */
  lemma {:induction false} ConsistentIssue(st: State, next: State, seeded: nat, total: int, task: Canonical.Dict)
    requires Consistent(st, seeded, total)
    requires st.count < total
    requires Canonical.Fingerprint(task) !in st.issued
    requires next.queue == st.queue + [task] && next.issued == st.issued + {Canonical.Fingerprint(task)}
    requires next.count == st.count + 1 && next.done == st.done
    ensures Consistent(next, seeded, total)
  {
    var mine := st.queue[seeded..];
    var key := Canonical.Fingerprint(task);
    assert next.queue[seeded..] == mine + [task];
    PrintsAppend(mine, task);
    ElementsAppend(Prints(mine), key);
    NoRepeatsAppend(Prints(mine), key);
  }

  /** One result processed: the state stays consistent. */
  lemma HandleResultPreserves(st: State, seeded: nat, total: int, observation: Worker.Observation, suggestions: seq<Canonical.Dict>)
    requires Consistent(st, seeded, total)
    requires HandleResult(st, total, observation, suggestions).Handled?
    ensures Consistent(HandleResult(st, total, observation, suggestions).state, seeded, total)
  {
    if st.count < total {
      IssuingPreserves(st, seeded, total, observation, suggestions);
    } else {
      HandleResultSpent(st, total, observation, suggestions);
      ConsistentSpent(st, seeded, total, st.calls + [Register(observation)]);
    }
  }

  lemma IssuingPreserves(st: State, seeded: nat, total: int, observation: Worker.Observation, suggestions: seq<Canonical.Dict>)
    requires Consistent(st, seeded, total) && st.count < total
    requires HandleResult(st, total, observation, suggestions).Handled?
    ensures Consistent(HandleResult(st, total, observation, suggestions).state, seeded, total)
  {
    var r := HandleResult(st, total, observation, suggestions);
    HandleResultIssues(st, total, observation, suggestions);
    ConsistentIssue(st, r.state, seeded, total, Candidate(suggestions[r.asked - 1]));
  }

  /** Setting the flag once the budget is spent keeps the state consistent. */
  lemma ConsistentSpent(st: State, seeded: nat, total: int, calls: seq<Call>)
    requires Consistent(st, seeded, total) && st.count >= total
    ensures Consistent(st.(done := true, calls := calls), seeded, total)
  {
  }

  /** One result processed: every task the handler put is still rounded. */
  lemma HandleResultRounds(st: State, seeded: nat, total: int, observation: Worker.Observation, suggestions: seq<Canonical.Dict>)
    requires TasksRounded(st, seeded)
    requires HandleResult(st, total, observation, suggestions).Handled?
    ensures TasksRounded(HandleResult(st, total, observation, suggestions).state, seeded)
  {
    if st.count < total {
      HandleResultIssues(st, total, observation, suggestions);
    } else {
      HandleResultSpent(st, total, observation, suggestions);
    }
  }

  /** Once the flag is up, a result is only registered: nothing is issued and nothing else changes. */
  lemma DoneStopsIssuing(st: State, seeded: nat, total: int, observation: Worker.Observation, suggestions: seq<Canonical.Dict>)
    requires Consistent(st, seeded, total) && st.done
    ensures HandleResult(st, total, observation, suggestions)
         == Handled(st.(calls := st.calls + [Register(observation)]), 0)
  {
    HandleResultSpent(st, total, observation, suggestions);
  }

  /**
   Two tasks the handler issued are different dictionaries: equal key-value
   contents would give equal fingerprints.
   */
  lemma HandlerTasksDiffer(st: State, seeded: nat, total: int, i: nat, j: nat)
    requires Consistent(st, seeded, total)
    requires seeded <= i < j < |st.queue|
    requires Canonical.DistinctKeys(st.queue[i]) && Canonical.DistinctKeys(st.queue[j])
    ensures Canonical.ToMap(st.queue[i]) != Canonical.ToMap(st.queue[j])
  {
    HandlerPrintsDiffer(st, seeded, total, i, j);
    Canonical.FingerprintIdentity(st.queue[i], st.queue[j]);
  }

  lemma HandlerPrintsDiffer(st: State, seeded: nat, total: int, i: nat, j: nat)
    requires Consistent(st, seeded, total)
    requires seeded <= i < j < |st.queue|
    ensures Canonical.Fingerprint(st.queue[i]) != Canonical.Fingerprint(st.queue[j])
  {
    var mine := st.queue[seeded..];
    assert mine[i - seeded] == st.queue[i] && mine[j - seeded] == st.queue[j];
    PrintsApart(mine, i - seeded, j - seeded);
  }

  // ---------------------------------------------------------------------------
  // The `result_handler` loop
  // ---------------------------------------------------------------------------

  /** Why the handler loop ended. */
  datatype Exit =
    | FlagSeen    // `while not task_done_event.is_set()` found the flag up
    | StopPill    // `result_queue.get()` returned `None`
    | Waiting     // no further result arrives: `get` blocks forever
    | Spinning    // a result sent the loop asking for duplicates forever

  /** The state the loop left, how many results it took off the queue, and why it ended. */
  datatype Outcome = Outcome(state: State, taken: nat, exit: Exit)

  /**
   Lines 55-81: process results until the flag is up, a `None` arrives or
   the results run out. Each result consumes suggestions from the front of
   the optimizer's stream. On `Spinning` the state is the one after the
   last result was registered.
   */
  function Run(st: State, total: int, results: seq<Option<Worker.Observation>>, suggestions: seq<Canonical.Dict>): (o: Outcome)
    ensures o.taken <= |results|
    decreases |results|
  {
    if st.done then Outcome(st, 0, FlagSeen)
    else if |results| == 0 then Outcome(st, 0, Waiting)
    else if results[0].None? then Outcome(st, 1, StopPill)
    else
      match HandleResult(st, total, results[0].value, suggestions)
      case Stalled => Outcome(st.(calls := st.calls + [Register(results[0].value)]), 1, Spinning)
      case Handled(next, n) =>
        var rest := Run(next, total, results[1..], suggestions[n..]);
        Outcome(rest.state, rest.taken + 1, rest.exit)
  }

  /** The observations among `results`, in order. */
  function Delivered(results: seq<Option<Worker.Observation>>): seq<Worker.Observation>
    decreases |results|
  {
    if |results| == 0 then []
    else (if results[0].Some? then [results[0].value] else []) + Delivered(results[1..])
  }

  /** The results registered with the optimizer, in order. */
  function Registered(calls: seq<Call>): seq<Worker.Observation>
    decreases |calls|
  {
    if |calls| == 0 then []
    else Registered(calls[..|calls| - 1]) + (if calls[|calls| - 1].Register? then [calls[|calls| - 1].observation] else [])
  }

  lemma {:induction false} RegisteredAppend(a: seq<Call>, b: seq<Call>)
    ensures Registered(a + b) == Registered(a) + Registered(b)
    decreases |b|
  {
    if |b| > 0 {
      var b' := b[..|b| - 1];
      assert (a + b)[..|a + b| - 1] == a + b';
      RegisteredAppend(a, b');
    } else {
      assert a + b == a;
    }
  }

  lemma {:induction false} RegisteredSuggests(answers: seq<Canonical.Dict>)
    ensures Registered(Suggests(answers)) == []
    decreases |answers|
  {
    if |answers| > 0 {
      RegisteredSuggests(answers[1..]);
      RegisteredAppend([Suggest(answers[0])], Suggests(answers[1..]));
    }
  }

  /** The exit reasons, as the loop's guards give them. */
  lemma {:induction false} RunExit(st: State, total: int, results: seq<Option<Worker.Observation>>, suggestions: seq<Canonical.Dict>)
    ensures var o := Run(st, total, results, suggestions);
      && (o.exit == FlagSeen ==> o.state.done)
      && (o.exit == Waiting ==> o.taken == |results| && !o.state.done)
      && (o.exit == StopPill ==> o.taken >= 1 && results[o.taken - 1].None?)
      && (o.exit != FlagSeen && o.exit != Waiting ==> o.taken >= 1)
      && (forall k :: 0 <= k < o.taken - 1 ==> results[k].Some?)
      && (o.exit == Waiting || o.exit == FlagSeen ==> forall k :: 0 <= k < o.taken ==> results[k].Some?)
    decreases |results|
  {
    if !st.done && |results| > 0 && results[0].Some? {
      var r := HandleResult(st, total, results[0].value, suggestions);
      if r.Handled? {
        RunExit(r.state, total, results[1..], suggestions[r.asked..]);
      }
    }
  }

  /** Every result taken is registered with the optimizer exactly once, in the order taken. */
  lemma {:induction false} RunRegisters(st: State, total: int, results: seq<Option<Worker.Observation>>, suggestions: seq<Canonical.Dict>)
    ensures var o := Run(st, total, results, suggestions);
      Registered(o.state.calls) == Registered(st.calls) + Delivered(results[..o.taken])
    decreases |results|
  {
    var o := Run(st, total, results, suggestions);
    if st.done || |results| == 0 {
      assert results[..o.taken] == [];
    } else if results[0].None? {
      assert results[..1][1..] == [];
      assert Delivered(results[..1]) == [];
    } else {
      var observation := results[0].value;
      var r := HandleResult(st, total, observation, suggestions);
      RegisteredAppend(st.calls, [Register(observation)]);
      assert Registered([Register(observation)]) == [observation];
      if r.Stalled? {
        assert results[..1][1..] == [];
      } else {
        HandleResultRegistersFirst(st, total, observation, suggestions);
        RegisteredAppend(st.calls + [Register(observation)], Suggests(suggestions[..r.asked]));
        RegisteredSuggests(suggestions[..r.asked]);
        var rest := Run(r.state, total, results[1..], suggestions[r.asked..]);
        RunRegisters(r.state, total, results[1..], suggestions[r.asked..]);
        assert results[..o.taken][1..] == results[1..][..rest.taken];
      }
    }
  }

  /** The loop keeps the state consistent, so the handler never issues more than the budget. */
  lemma {:induction false} RunPreserves(st: State, seeded: nat, total: int, results: seq<Option<Worker.Observation>>, suggestions: seq<Canonical.Dict>)
    requires Consistent(st, seeded, total) && TasksRounded(st, seeded)
    ensures var o := Run(st, total, results, suggestions);
      && Consistent(o.state, seeded, total) && TasksRounded(o.state, seeded)
      && |o.state.queue| <= seeded + Budget(total)
    decreases |results|
  {
    if !st.done && |results| > 0 && results[0].Some? {
      var r := HandleResult(st, total, results[0].value, suggestions);
      if r.Handled? {
        HandleResultPreserves(st, seeded, total, results[0].value, suggestions);
        HandleResultRounds(st, seeded, total, results[0].value, suggestions);
        RunPreserves(r.state, seeded, total, results[1..], suggestions[r.asked..]);
      }
    }
  }

  /** The queue only grows, by at most one task per result taken. */
  lemma {:induction false} RunAppends(st: State, total: int, results: seq<Option<Worker.Observation>>, suggestions: seq<Canonical.Dict>)
    ensures var o := Run(st, total, results, suggestions);
      && |st.queue| <= |o.state.queue| <= |st.queue| + o.taken
      && o.state.queue[..|st.queue|] == st.queue
    decreases |results|
  {
    if !st.done && |results| > 0 && results[0].Some? {
      var r := HandleResult(st, total, results[0].value, suggestions);
      if r.Handled? {
        if st.count < total {
          HandleResultIssues(st, total, results[0].value, suggestions);
        } else {
          HandleResultSpent(st, total, results[0].value, suggestions);
        }
        RunAppends(r.state, total, results[1..], suggestions[r.asked..]);
        var o := Run(r.state, total, results[1..], suggestions[r.asked..]);
        assert o.state.queue[..|st.queue|] == o.state.queue[..|r.state.queue|][..|st.queue|];
      }
    }
  }

  /** A handled result hands the rest of the results, and of the stream, to the next round. */
  lemma RunUnfold(st: State, total: int, results: seq<Option<Worker.Observation>>, suggestions: seq<Canonical.Dict>)
    requires !st.done && |results| > 0 && results[0].Some?
    requires HandleResult(st, total, results[0].value, suggestions).Handled?
    ensures var step := HandleResult(st, total, results[0].value, suggestions);
      var rest := Run(step.state, total, results[1..], suggestions[step.asked..]);
      Run(st, total, results, suggestions) == Outcome(rest.state, rest.taken + 1, rest.exit)
  {
  }

  /** The loop of `result_handler`, one result at a time. */
  method ResultHandler(st: State, total: int, results: seq<Option<Worker.Observation>>, suggestions: seq<Canonical.Dict>)
    returns (o: Outcome)
    ensures o == Run(st, total, results, suggestions)
  {
    var current, pending, stream := st, results, suggestions;
    var taken := 0;
    while true
      invariant taken + |pending| == |results|
      invariant var rest := Run(current, total, pending, stream);
        Run(st, total, results, suggestions) == Outcome(rest.state, taken + rest.taken, rest.exit)
      decreases |pending|
    {
      if current.done {
        return Outcome(current, taken, FlagSeen);
      }
      if |pending| == 0 {
        return Outcome(current, taken, Waiting);
      }
      var result := pending[0];
      if result.None? {
        return Outcome(current, taken + 1, StopPill);
      }
      var step := HandleResult(current, total, result.value, stream);
      if step.Stalled? {
        return Outcome(current.(calls := current.calls + [Register(result.value)]), taken + 1, Spinning);
      }
      RunUnfold(current, total, pending, stream);
      current, pending, stream, taken := step.state, pending[1..], stream[step.asked..], taken + 1;
    }
  }

  // ---------------------------------------------------------------------------
  // Seeding (lines 114-117)
  // ---------------------------------------------------------------------------

  lemma {:induction false} SuggestsAppend(a: seq<Canonical.Dict>, b: seq<Canonical.Dict>)
    ensures Suggests(a + b) == Suggests(a) + Suggests(b)
    decreases |a|
  {
    if |a| > 0 {
      assert (a + b)[1..] == a[1..] + b;
      SuggestsAppend(a[1..], b);
    } else {
      assert a + b == b;
    }
  }

  /**
   `cpu_count` initial suggestions go on the queue as the optimizer gave
   them: not rounded, not fingerprinted and not counted against the budget.
   The optimizer always answers, so the stream holds at least that many.
   */
  method Seed(cpuCount: int, suggestions: seq<Canonical.Dict>) returns (st: State)
    requires Budget(cpuCount) <= |suggestions|
    ensures st.queue == suggestions[..Budget(cpuCount)]
    ensures st.calls == Suggests(suggestions[..Budget(cpuCount)])
    ensures st.issued == {} && st.count == 0 && !st.done
  {
    st := State({}, 0, false, [], []);
    var i := 0;
    while i < cpuCount
      invariant 0 <= i <= Budget(cpuCount)
      invariant st.queue == suggestions[..i]
      invariant st.calls == Suggests(suggestions[..i])
      invariant st.issued == {} && st.count == 0 && !st.done
    {
      SuggestsAppend(suggestions[..i], [suggestions[i]]);
      assert suggestions[..i + 1] == suggestions[..i] + [suggestions[i]];
      st := st.(queue := st.queue + [suggestions[i]], calls := st.calls + [Suggest(suggestions[i])]);
      i := i + 1;
    }
  }

  /** The state after seeding satisfies the handler's invariant, whatever the budget. */
  lemma SeededConsistent(st: State, total: int)
    requires st.issued == {} && st.count == 0 && !st.done
    ensures Consistent(st, |st.queue|, total) && TasksRounded(st, |st.queue|)
  {
    assert st.queue[|st.queue|..] == [];
  }

  /**
   Seeds are not recorded as issued, so the handler can put a task equal to
   a seed: a seed already on the grid, suggested again, is queued twice.
   */
  lemma SeedMayRepeat()
    ensures var seed := [("x", 0.5)];
      var st := State({}, 0, false, [seed], [Suggest(seed)]);
      var observation := Worker.Observation(seed, Worker.Score(-1.0));
      && HandleResult(st, 1, observation, [seed]).Handled?
      && HandleResult(st, 1, observation, [seed]).state.queue == [seed, seed]
  {
    var seed := [("x", 0.5)];
    Canonical.RoundDictFixes(seed, Canonical.DefaultPrecision);
    assert Canonical.OnGrid(0.5, Canonical.Scale(Canonical.DefaultPrecision)) by {
      assert Canonical.Scale(Canonical.DefaultPrecision) == 10000.0;
    }
    assert Candidate(seed) == seed;
  }
}
