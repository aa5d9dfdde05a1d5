/** A run of the job table with literal results: a command that fails, a pipeline whose first process is killed, a job
    in the background that is killed, and one that is suspended and brought back. */
module JobRun {
  import opened JobHistory
  import opened Jobs
  import opened JobTable
  import opened Lexer
  import opened Sequences

  const SIGNALS: seq<seq<Event>> :=
    [[Exit(7, 1)], [Kill(8, 13)], [Exit(9, 3)], [Stop(11)], [Kill(10, 15)], []]

  /** The processes whose end was reported in the first `n` batches. */
  function Over(n: nat): set<int> {
    if n == 0 then {} else if n == 1 then {7} else if n == 2 then {7, 8} else if n <= 4 then {7, 8, 9}
    else {7, 8, 9, 10}
  }

  lemma OverStep(n: nat)
    requires n < 6
    ensures Legal(SIGNALS[n], Over(n)) && AllReaped(Over(n), SIGNALS[n]) == Over(n + 1)
  {
    var b := SIGNALS[n];
    if n != 5 {
      assert b[1..] == [] && ReapedBy(Over(n), b[0]) == Over(n + 1);
    }
  }

  lemma {:induction false} SignalsLegal(n: nat)
    requires n <= 6
    ensures LegalAll(SIGNALS[n..], Over(n))
    decreases 6 - n
  {
    hide Legal, AllReaped;
    if n < 6 {
      SignalsLegal(n + 1);
      OverStep(n);
      assert SIGNALS[n..][0] == SIGNALS[n] && SIGNALS[n..][1..] == SIGNALS[n + 1..];
    }
  }

  lemma HeardOne(jobs: seq<Job>, e: Event)
    ensures Heard(jobs, [e]) == NotedTable(jobs, e)
  {
    assert [e][..0] == [];
  }

  /** The foreground job runs through `k` batches and no longer. */
  lemma WaitEnds(start: seq<Job>, batches: seq<seq<Event>>, n: nat, jobs: seq<Job>, done: bool, k: nat)
    requires start != [] && Waited(start, batches, n, jobs, done) && k <= |batches|
    requires forall i {:trigger batches[..i]} :: 0 <= i < k ==> HeardAll(start, batches[..i])[FG].state == Running
    requires HeardAll(start, batches[..k])[FG].state != Running
    ensures n == k && done && jobs == Settled(HeardAll(start, batches[..k]))
  {
    hide HeardAll, Settled;
    assert batches[..|batches|] == batches && |batches[..k]| == k && |batches[..n]| == n;
  }

  /** A job of one process takes over what is reported about it. */
  lemma OneProcess(b: Job, e: Event)
    requires |b.proc| == 1 && b.proc[0].pid == e.pid
    ensures NotedJob(b, e) == b.(proc := [Noted(b.proc[0], e)], state := After(e))
  {
    assert NotedAll(b.proc, e) == [Noted(b.proc[0], e)];
  }

  lemma OtherProcess(b: Job, e: Event)
    requires forall k :: 0 <= k < |b.proc| ==> b.proc[k].pid != e.pid
    ensures NotedJob(b, e) == b
  {
    assert NotedAll(b.proc, e) == b.proc;
  }

  lemma {:induction false} Alone(pid: int, argv: seq<string>)
    requires argv != []
    ensures var b := Launched(pid, [Stage(pid, argv)]);
            b == Job(pid, [Proc(pid, Running, Unset)], Running, b.command)
  {
    LaunchedIs(pid, [Stage(pid, argv)]);
  }

  /** `false` in the foreground: what follows `&&` would not be run. */
  method Fails(t: Table) returns (code: int)
    requires t.Valid() && t.jobs == [FREE] && t.signals == SIGNALS && t.home.Keys == {}
    modifies t
    ensures t.Valid() && t.jobs == [FREE] && t.signals == SIGNALS[1..] && t.home.Keys == {7}
    ensures code == 1
  {
    hide Table.Valid, Waited, Kept, HeardAll, Heard, Launched;
    ghost var batches, home := SIGNALS, t.home;
    var stages := [Stage(7, ["false"])];
    assert t.jobs[0] == FREE && stages[0].pid !in t.home.Keys && stages[0].argv != [];
    assert Fresh(stages, t.home.Keys);
    var j, done;
    ghost var n;
    j, done, code, n := t.Launch(false, stages);
    Alone(7, ["false"]);
    ghost var start := [Launched(7, stages)];
    Waiting(start, batches, 0);
    Waiting(start, batches, 1);
    HeardOne(start, Exit(7, 1));
    OneProcess(start[0], Exit(7, 1));
    assert Room([FREE], FG)[FG := start[0]] == start;
    WaitEnds(start, batches, n, t.jobs, done, 1);
    KeptKeys(home, t.home, PidsOf(stages));
  }

  /** What becomes of a pipeline whose first process is killed and whose last then exits. */
  lemma PipeHeard(b: Job)
    requires b.proc == [Proc(8, Running, Unset), Proc(9, Running, Unset)] && b.state == Running
    ensures var c := NotedJob(b, Kill(8, 13));
            && c.state == Running && NotedJob(c, Exit(9, 3)).state == Finished
            && NotedJob(c, Exit(9, 3)).proc == [Proc(8, Finished, Killed(13)), Proc(9, Finished, Exited(3))]
  {
    var c := NotedJob(b, Kill(8, 13));
    assert NotedAll(b.proc, Kill(8, 13)) == [Proc(8, Finished, Killed(13)), Proc(9, Running, Unset)];
    assert c.proc[0].state == Finished && c.proc[1].state == Running;
    assert NotedAll(c.proc, Exit(9, 3)) == [Proc(8, Finished, Killed(13)), Proc(9, Finished, Exited(3))];
  }

  lemma PipeWaited(b: Job, batches: seq<seq<Event>>, n: nat, jobs: seq<Job>, done: bool)
    requires b.proc == [Proc(8, Running, Unset), Proc(9, Running, Unset)] && b.state == Running
    requires |batches| >= 2 && batches[0] == [Kill(8, 13)] && batches[1] == [Exit(9, 3)]
    requires Waited([b], batches, n, jobs, done)
    ensures n == 2 && done && jobs == [FREE] && Concat(batches[..2]) == [Kill(8, 13), Exit(9, 3)]
  {
    hide Waited, HeardAll, Heard, NotedJob, Concat;
    var c := NotedJob(b, Kill(8, 13));
    PipeHeard(b);
    Waiting([b], batches, 0);
    Waiting([b], batches, 1);
    Waiting([b], batches, 2);
    HeardOne([b], Kill(8, 13));
    HeardOne([c], Exit(9, 3));
    assert NotedTable([b], Kill(8, 13)) == [c];
    WaitEnds([b], batches, n, jobs, done, 2);
    ConcatNone(batches);
    ConcatUpTo(batches, 0);
    ConcatUpTo(batches, 1);
  }

  /** A pipeline has the code of its last process. */
  method Pipes(t: Table) returns (code: int)
    requires t.Valid() && t.jobs == [FREE] && t.signals == SIGNALS[1..] && t.home.Keys == {7}
    modifies t
    ensures t.Valid() && t.jobs == [FREE] && t.signals == SIGNALS[3..] && t.home.Keys == {7, 8, 9}
    ensures code == 3
  {
    hide Table.Valid, Waited, Kept, Launched, Concat;
    ghost var home := t.home;
    var stages := [Stage(8, ["yes"]), Stage(9, ["wc"])];
    assert t.jobs[0] == FREE && stages[0].argv != [] && stages[1].argv != [];
    assert Fresh(stages, t.home.Keys);
    var j, done;
    ghost var n;
    j, done, code, n := t.Launch(false, stages);
    LaunchedIs(8, stages);
    ghost var b := Launched(8, stages);
    assert b.proc == [Proc(8, Running, Unset), Proc(9, Running, Unset)];
    assert Room([FREE], FG)[FG := b] == [b];
    PipeWaited(b, SIGNALS[1..], n, t.jobs, done);
    ghost var told := [Kill(8, 13), Exit(9, 3)];
    assert told[0].Kill? && told[1].Exit?;
    KeptKeys(home, t.home, PidsOf(stages));
    assert PidsOf(stages) == {stages[0].pid, stages[1].pid};
  }

  /** A job of one process. */
  ghost predicate Single(b: Job, p: Proc) {
    b.pgid == p.pid && b.state == p.state && b.proc == [p]
  }

  /** A job in the background is not waited for. */
  method Starts(t: Table) returns (ghost b: Job)
    requires t.Valid() && t.jobs == [FREE] && t.signals == SIGNALS[3..] && t.home.Keys == {7, 8, 9}
    modifies t
    ensures t.Valid() && t.jobs == [FREE, b] && t.signals == SIGNALS[3..] && t.home.Keys == {7, 8, 9, 10}
    ensures Single(b, Proc(10, Running, Unset))
  {
    hide Table.Valid, Kept, Launched;
    ghost var home := t.home;
    var stages := [Stage(10, ["sleep"])];
    assert t.jobs[0] == FREE && stages[0].argv != [];
    assert Fresh(stages, t.home.Keys);
    var j, done, code;
    ghost var n;
    j, done, code, n := t.Launch(true, stages);
    Alone(10, ["sleep"]);
    b := Launched(10, stages);
    assert Room([FREE], 1)[1 := b] == [FREE, b];
    KeptKeys(home, t.home, PidsOf(stages));
  }

  lemma SuspendWaited(b: Job, c: Job, batches: seq<seq<Event>>, n: nat, jobs: seq<Job>, done: bool)
    requires Single(b, Proc(10, Running, Unset)) && Single(c, Proc(11, Running, Unset))
    requires |batches| >= 1 && batches[0] == [Stop(11)] && Waited([c, b], batches, n, jobs, done)
    ensures n == 1 && done && Concat(batches[..1]) == [Stop(11)]
    ensures |jobs| == 3 && jobs[0] == FREE && jobs[1] == b && Single(jobs[2], Proc(11, Stopped, Unset))
  {
    hide Waited, HeardAll, Heard, NotedJob, Concat;
    var d := NotedJob(c, Stop(11));
    OneProcess(c, Stop(11));
    OtherProcess(b, Stop(11));
    Waiting([c, b], batches, 0);
    Waiting([c, b], batches, 1);
    HeardOne([c, b], Stop(11));
    assert NotedTable([c, b], Stop(11)) == [d, b];
    WaitEnds([c, b], batches, n, jobs, done, 1);
    ConcatNone(batches);
    ConcatUpTo(batches, 0);
    assert FirstFree([d, b]) == 2 && Moved(Room([d, b], 2), FG, 2) == [FREE, b, d];
  }

  /** A job that is suspended goes to the background. */
  method Suspends(t: Table, ghost b: Job) returns (code: int)
    requires t.Valid() && t.jobs == [FREE, b] && Single(b, Proc(10, Running, Unset))
    requires t.signals == SIGNALS[3..] && t.home.Keys == {7, 8, 9, 10}
    modifies t
    ensures t.Valid() && t.signals == SIGNALS[4..] && code == 0
    ensures |t.jobs| == 3 && t.jobs[0] == FREE && t.jobs[1] == b && Single(t.jobs[2], Proc(11, Stopped, Unset))
  {
    hide Table.Valid, Waited, Kept, Launched, Concat;
    var stages := [Stage(11, ["vi"])];
    assert t.jobs[0] == FREE && stages[0].argv != [];
    assert Fresh(stages, t.home.Keys);
    var j, done;
    ghost var n;
    j, done, code, n := t.Launch(false, stages);
    Alone(11, ["vi"]);
    ghost var c := Launched(11, stages);
    assert Room([FREE, b], FG)[FG := c] == [c, b];
    SuspendWaited(b, c, SIGNALS[3..], n, t.jobs, done);
    assert !Ended([Stop(11)], stages[0].pid);
  }

  lemma WatchedAre(b: Job, c: Job, batches: seq<seq<Event>>)
    requires Single(b, Proc(10, Running, Unset)) && Single(c, Proc(11, Stopped, Unset))
    requires |batches| == 2 && batches[0] == [Kill(10, 15)] && batches[1] == []
    ensures var d := NotedJob(b, Kill(10, 15));
            d.pgid == 10 && Watched([FREE, b, c], None, batches, 3) ==
              ([FREE, FREE, c], [Report(1, d, KilledBy(15)), Report(2, c, Suspended)])
  {
    hide Watched, Heard, NotedJob;
    var start, d := [FREE, b, c], NotedJob(b, Kill(10, 15));
    OneProcess(b, Kill(10, 15));
    OtherProcess(c, Kill(10, 15));
    OtherProcess(FREE, Kill(10, 15));
    HeardOne(start, Kill(10, 15));
    assert NotedTable(start, Kill(10, 15)) == [FREE, d, c];
    WatchedNone(start, None, batches);
    WatchedStep(start, None, batches, 1);
    var swept := [FREE, FREE, c];
    assert [FREE, d, c][1 := FREE] == swept && swept[2 := c] == swept;
    var first, second := Report(1, d, KilledBy(15)), Report(2, c, Suspended);
    assert [] + [first] == [first] && [first] + [second] == [first, second];
    assert Watched(start, None, batches, 2) == (swept, [first]);
    HeardNone(swept);
    WatchedStep(start, None, batches, 2);
    assert Swept(swept[2], None) == c && Said(c) == Suspended;
    assert Watched(start, None, batches, 3) == (swept, [first, second]);
  }

  lemma HeardNone(jobs: seq<Job>)
    ensures Heard(jobs, []) == jobs
  {
  }

  /** `jobs`: the handler runs first, so the job in the background is reported as killed and is gone. */
  method Watches(t: Table, ghost b: Job, ghost c: Job) returns (reports: seq<Report>)
    requires t.Valid() && t.jobs == [FREE, b, c] && t.signals == SIGNALS[4..]
    requires Single(b, Proc(10, Running, Unset)) && Single(c, Proc(11, Stopped, Unset))
    modifies t
    ensures t.jobs == [Job(0, [], Finished, None), Job(0, [], Finished, None), c] && |reports| == 2
    ensures reports[0].j == 1 && reports[0].job.pgid == 10 && reports[0].said == KilledBy(15)
    ensures reports[1].j == 2 && reports[1].job == c && reports[1].said == Suspended
  {
    hide Table.Valid, Kept, Watched, Heard, NotedJob;
    WatchedAre(b, c, t.signals);
    reports := t.WatchJobs(None);
  }

  method Run() returns (codes: seq<int>, reports: seq<Report>)
    ensures codes == [1, 3, 0] && |reports| == 2
    ensures reports[0].j == 1 && reports[0].job.pgid == 10 && reports[0].said == KilledBy(15)
    ensures reports[1].j == 2 && reports[1].said == Suspended
  {
    hide Table.Valid, LegalAll, Single;
    SignalsLegal(0);
    assert SIGNALS[0..] == SIGNALS;
    var t := new Table(SIGNALS);
    var first := Fails(t);
    var second := Pipes(t);
    ghost var b := Starts(t);
    var third := Suspends(t, b);
    codes := [first, second, third];
    ghost var c := t.jobs[2];
    assert t.jobs == [FREE, b, c];
    reports := Watches(t, b, c);
  }
}
