/** A batch of queries sharing one response count. The tasks of a batch run interleaved: a task
    gives way to the others only while it waits for the database. */
module Batch {
  import opened Paging

  datatype Kind = PackageQuery | CommitQuery

  /** Ready: waiting for the next row. Fetching: a commit query that passed the page check and
      waits for the vulnerability of its row. */
  datatype Phase = Ready | Fetching | Done

  datatype Task = Task(kind: Kind, limitOverride: nat, bugs: nat, phase: Phase)

  datatype State = State(tasks: seq<Task>, total: nat)

  function Sum(counts: seq<nat>): nat { if counts == [] then 0 else counts[0] + Sum(counts[1..]) }

  function Pages(tasks: seq<Task>): (counts: seq<nat>)
    ensures |counts| == |tasks| && forall i :: 0 <= i < |tasks| ==> counts[i] == tasks[i].bugs
  {
    seq(|tasks|, i requires 0 <= i < |tasks| => tasks[i].bugs)
  }

  /** should_break_page without the cut-off time, which may end a page at any check. */
  predicate PageIsOpen(s: State, t: Task) { t.bugs < LimitAt(s.total, t.limitOverride) }

  predicate Initial(s: State) {
    s.total == 0 && forall i :: 0 <= i < |s.tasks| ==> s.tasks[i].bugs == 0 && s.tasks[i].phase != Fetching
  }

  /** What one task may do between two waits. */
  predicate TaskStep(s: State, t: Task, u: Task, added: nat) {
    && u.kind == t.kind && u.limitOverride == t.limitOverride && u.bugs == t.bugs + added && added <= 1
    && match t.phase
       case Done => false
       case Ready =>
         || (u.phase == Done && added == 0)  // no row left, the page limit, or the cut-off time
         || (t.kind == PackageQuery && PageIsOpen(s, t) && u.phase == Ready)  // a row, accepted or not
         || (t.kind == CommitQuery && PageIsOpen(s, t) && u.phase == Fetching && added == 0)
       case Fetching => u.phase == Ready  // the vulnerability, returned or passed over
  }

  predicate StepOf(s: State, s': State, i: nat) {
    && i < |s.tasks| == |s'.tasks| && s'.total >= s.total
    && s'.tasks == s.tasks[i := s'.tasks[i]]
    && TaskStep(s, s.tasks[i], s'.tasks[i], s'.total - s.total)
  }

  ghost predicate Next(s: State, s': State) { exists i: nat :: StepOf(s, s', i) }

  /** A run: any interleaving of the tasks. */
  ghost predicate IsRun(run: seq<State>) {
    run != [] && Initial(run[0]) && forall k :: 0 <= k < |run| - 1 ==> Next(run[k], run[k + 1])
  }

  // ----- what every step keeps

  /** `extra` counts what each task added to a total already above the threshold. */
  ghost predicate Inv(s: State, extra: seq<nat>) {
    && |extra| == |s.tasks|
    && s.total == Sum(Pages(s.tasks))
    && (s.total <= MAX_VULN_RESP_THRESH ==> forall i :: 0 <= i < |extra| ==> extra[i] == 0)
    && (s.total > MAX_VULN_RESP_THRESH ==> s.total == MAX_VULN_RESP_THRESH + 1 + Sum(extra))
    && forall i :: 0 <= i < |extra| ==> TaskInv(s.tasks[i], extra[i])
  }

  predicate TaskInv(t: Task, extra: nat) {
    && t.bugs <= PageBound(t.limitOverride)
    && (extra <= 1 || extra <= t.bugs <= MAX_VULN_LISTED_POST_EXCEEDED)
    && (extra == 1 ==> t.bugs >= 1)
    && (t.phase == Fetching ==> t.bugs < PageBound(t.limitOverride))
    && (t.phase == Fetching && extra > 0 ==> t.bugs < MAX_VULN_LISTED_POST_EXCEEDED)
  }

  lemma {:induction false} SumUpdate(counts: seq<nat>, i: nat, n: nat)
    requires i < |counts|
    ensures Sum(counts[i := n]) == Sum(counts) - counts[i] + n
  {
    if i == 0 {
      assert counts[i := n][1..] == counts[1..];
    } else {
      assert counts[i := n][1..] == counts[1..][i - 1 := n];
      SumUpdate(counts[1..], i - 1, n);
    }
  }

  lemma {:induction false} SumBound(counts: seq<nat>, bound: nat)
    requires forall i :: 0 <= i < |counts| ==> counts[i] <= bound
    ensures Sum(counts) <= bound * |counts|
  {
    if counts != [] { SumBound(counts[1..], bound); }
  }

  lemma {:induction false} SumZero(counts: seq<nat>)
    requires forall i :: 0 <= i < |counts| ==> counts[i] == 0
    ensures Sum(counts) == 0
  {
    SumBound(counts, 0);
  }

  lemma {:induction false} InitialHolds(s: State)
    requires Initial(s)
    ensures Inv(s, seq(|s.tasks|, i => 0))
  {
    SumZero(Pages(s.tasks));
  }

  /** The task of the batch that moved keeps its part. */
  lemma {:induction false} TaskKeeps(s: State, t: Task, u: Task, added: nat, extra: nat)
    requires TaskStep(s, t, u, added) && TaskInv(t, extra)
    requires s.total <= MAX_VULN_RESP_THRESH ==> extra == 0
    ensures TaskInv(u, if s.total > MAX_VULN_RESP_THRESH then extra + added else extra)
  {
  }

  lemma {:induction false} StepKeeps(s: State, s': State, i: nat, extra: seq<nat>) returns (extra': seq<nat>)
    requires Inv(s, extra) && StepOf(s, s', i)
    ensures Inv(s', extra')
  {
    var added := s'.total - s.total;
    var before := Pages(s.tasks);
    assert Pages(s'.tasks) == before[i := before[i] + added];
    SumUpdate(before, i, before[i] + added);
    TaskKeeps(s, s.tasks[i], s'.tasks[i], added, extra[i]);
    extra' := if s.total > MAX_VULN_RESP_THRESH then extra[i := extra[i] + added] else extra;
    if s.total > MAX_VULN_RESP_THRESH {
      SumUpdate(extra, i, extra[i] + added);
    } else {
      SumZero(extra);
    }
  }

  lemma {:induction false} RunKeeps(run: seq<State>, k: nat) returns (extra: seq<nat>)
    requires IsRun(run) && k < |run|
    ensures Inv(run[k], extra) && |run[k].tasks| == |run[0].tasks|
  {
    if k == 0 {
      InitialHolds(run[0]);
      extra := seq(|run[0].tasks|, i => 0);
    } else {
      var before := RunKeeps(run, k - 1);
      assert Next(run[k - 1], run[k - 1 + 1]);
      var i: nat :| StepOf(run[k - 1], run[k], i);
      extra := StepKeeps(run[k - 1], run[k], i, before);
    }
  }

  /** The batch budget, in every state of every interleaving: the shared count is the sum of the
      pages, no page exceeds its limit, and N queries never exceed the threshold by more than
      one response and five for each query. */
  lemma {:induction false} BatchBudget(run: seq<State>, k: nat)
    requires IsRun(run) && k < |run|
    ensures var s, n := run[k], |run[0].tasks|;
            && |s.tasks| == n
            && s.total == Sum(Pages(s.tasks))
            && s.total <= MAX_VULN_RESP_THRESH + 1 + MAX_VULN_LISTED_POST_EXCEEDED * n
            && forall i :: 0 <= i < n ==> s.tasks[i].bugs <= PageBound(s.tasks[i].limitOverride)
  {
    var extra := RunKeeps(run, k);
    SumBound(extra, MAX_VULN_LISTED_POST_EXCEEDED);
  }
}
