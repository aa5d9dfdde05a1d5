/** Jobs of `shell/jobs.c` as values: what a change of a child's status does to the job it belongs to, and what
    is true of the table between any two steps. */
module Jobs {
  import opened Lexer

  datatype State = Finished | Running | Stopped

  /** A `wait` status; `Unset` is the initial -1. */
  datatype Status = Unset | Exited(code: int) | Killed(signal: int)

  datatype Proc = Proc(pid: int, state: State, exitcode: Status)

  /** A slot is free when `pgid` is 0. */
  datatype Job = Job(pgid: int, proc: seq<Proc>, state: State, command: Option<string>)

  /** What `waitpid` reports. */
  datatype Event = Exit(pid: int, code: int) | Kill(pid: int, signal: int) | Stop(pid: int) | Continue(pid: int)

  /** Where the processes of a job are recorded: in a slot, or in a job that was reported and deleted. */
  datatype Place = Slot(i: nat) | Buried(n: nat)

  const FREE: Job := Job(0, [], Finished, None)
  const FG: nat := 0
  const BG: nat := 1

  function After(e: Event): State {
    match e
    case Exit(_, _) => Finished
    case Kill(_, _) => Finished
    case Stop(_) => Stopped
    case Continue(_) => Running
  }

  function Noted(p: Proc, e: Event): Proc {
    match e
    case Exit(_, code) => p.(state := Finished, exitcode := Exited(code))
    case Kill(_, signal) => p.(state := Finished, exitcode := Killed(signal))
    case Stop(_) => p.(state := Stopped)
    case Continue(_) => p.(state := Running)
  }

  predicate Member(ps: seq<Proc>, pid: int) {
    exists k :: 0 <= k < |ps| && ps[k].pid == pid
  }

  predicate Share(ps: seq<Proc>, s: State) {
    forall k :: 0 <= k < |ps| ==> ps[k].state == s
  }

  lemma ShareMore(ps: seq<Proc>, k: nat, s: State)
    requires k < |ps|
    ensures Share(ps[..k + 1], s) <==> Share(ps[..k], s) && ps[k].state == s
  {
    assert ps[..k + 1] == ps[..k] + [ps[k]];
    assert (ps[..k] + [ps[k]])[k] == ps[k];
    assert forall j :: 0 <= j < k ==> ps[..k + 1][j] == ps[..k][j];
  }

  predicate Distinct(ps: seq<Proc>) {
    forall k, l :: 0 <= k < l < |ps| ==> ps[k].pid != ps[l].pid
  }

  function NotedAll(ps: seq<Proc>, e: Event): seq<Proc> {
    seq(|ps|, k requires 0 <= k < |ps| => if ps[k].pid == e.pid then Noted(ps[k], e) else ps[k])
  }

  /** A job after a change of one of its processes: its state follows when all of them now agree. */
  function NotedJob(b: Job, e: Event): Job {
    if !Member(b.proc, e.pid) then b else
      var ps := NotedAll(b.proc, e);
      b.(proc := ps, state := if Share(ps, After(e)) then After(e) else b.state)
  }

  predicate JobOk(b: Job) {
    && (b.pgid == 0 ==> b == FREE)
    && (b.pgid != 0 && b.proc == [] ==> b.state == Running && b.command == None)
    && (b.proc != [] ==> b.command.Some? && (b.state == Finished <==> Share(b.proc, Finished)))
    && (forall s :: b.proc != [] && Share(b.proc, s) ==> b.state == s)
    && Distinct(b.proc)
    && (forall k :: 0 <= k < |b.proc| ==> (b.proc[k].state == Finished <==> b.proc[k].exitcode != Unset))
  }

  /** The processes that have finished are among those whose exit was reported. */
  predicate Reaped(b: Job, reaped: set<int>) {
    forall k :: 0 <= k < |b.proc| && b.proc[k].state == Finished ==> b.proc[k].pid in reaped
  }

  function ReapedBy(reaped: set<int>, e: Event): set<int> {
    if After(e) == Finished then reaped + {e.pid} else reaped
  }

  lemma NotedJobOk(b: Job, e: Event, reaped: set<int>)
    requires JobOk(b) && Reaped(b, reaped) && e.pid !in reaped
    ensures JobOk(NotedJob(b, e)) && Reaped(NotedJob(b, e), ReapedBy(reaped, e))
    ensures forall pid {:trigger Member(NotedJob(b, e).proc, pid)} :: Member(NotedJob(b, e).proc, pid) <==>
            Member(b.proc, pid)
  {
    var c := NotedJob(b, e);
    if Member(b.proc, e.pid) {
      var k :| 0 <= k < |b.proc| && b.proc[k].pid == e.pid;
      assert c.proc[k].state == After(e);
      assert forall l :: 0 <= l < |b.proc| ==> c.proc[l].pid == b.proc[l].pid && (l != k ==> c.proc[l] == b.proc[l]);
      assert b.state != Finished;
    }
  }

  // ----- the rule in the comment on `state` -------------------------------------------------------------

  predicate LiveShare(ps: seq<Proc>, s: State) {
    forall k :: 0 <= k < |ps| ==> ps[k].state == Finished || ps[k].state == s
  }

  predicate SomeFinished(ps: seq<Proc>) {
    exists k :: 0 <= k < |ps| && ps[k].state == Finished
  }

  /** The state that the job structure's own description calls for: that in which its unfinished processes agree. */
  function Documented(ps: seq<Proc>, was: State): State {
    if Share(ps, Finished) then Finished
    else if LiveShare(ps, Running) then Running
    else if LiveShare(ps, Stopped) then Stopped
    else was
  }

  /** The handler compares all processes, the finished ones included, so the job misses a change of the live
      ones exactly when a process has finished while those still alive agree on a new state. */
  lemma StateExact(b: Job, e: Event)
    requires JobOk(b) && Member(b.proc, e.pid) && b.state != Finished
    requires forall k :: 0 <= k < |b.proc| && b.proc[k].pid == e.pid ==> b.proc[k].state != Finished
    ensures var ps := NotedAll(b.proc, e);
      NotedJob(b, e).state != Documented(ps, b.state) <==>
      SomeFinished(ps) && !Share(ps, Finished) && exists s :: s != b.state && s != Finished && LiveShare(ps, s)
  {
    var ps := NotedAll(b.proc, e);
    var k :| 0 <= k < |b.proc| && b.proc[k].pid == e.pid;
    assert ps[k].state == After(e);
    assert forall l :: 0 <= l < |ps| && l != k ==> ps[l] == b.proc[l];
  }

  /** A pipeline whose first process has finished and whose last is stopped still counts as running. */
  lemma StoppedPipeline(first: int, last: int, text: string)
    requires 0 < first && 0 < last && first != last
    ensures var b := Job(first, [Proc(first, Running, Unset), Proc(last, Running, Unset)], Running, Some(text));
      var c := NotedJob(NotedJob(b, Exit(first, 0)), Stop(last));
      JobOk(b) && LiveShare(c.proc, Stopped) && !Share(c.proc, Finished) && c.state == Running
  {
    var ps := [Proc(first, Running, Unset), Proc(last, Running, Unset)];
    var qs := [Proc(first, Finished, Exited(0)), Proc(last, Running, Unset)];
    var rs := [Proc(first, Finished, Exited(0)), Proc(last, Stopped, Unset)];
    var b := Job(first, ps, Running, Some(text));
    assert ps[0].state == Running && ps[0].pid == first;
    assert NotedAll(ps, Exit(first, 0)) == qs && qs[1].state == Running && qs[1].pid == last;
    var c := NotedJob(b, Exit(first, 0));
    assert c.proc == qs && c.state == Running;
    assert NotedAll(qs, Stop(last)) == rs && rs[0].state == Finished && rs[1].state == Stopped;
    var d := NotedJob(c, Stop(last));
    assert d.proc == rs && d.state == Running;
    assert !Share(ps, Finished) && forall s :: Share(ps, s) ==> s == Running;
  }

  // ----- the table --------------------------------------------------------------------------------------

  function NotedTable(jobs: seq<Job>, e: Event): seq<Job> {
    seq(|jobs|, i requires 0 <= i < |jobs| => NotedJob(jobs[i], e))
  }

  /** The table after one run of the signal handler. */
  function Heard(jobs: seq<Job>, events: seq<Event>): (r: seq<Job>)
    ensures |r| == |jobs|
  {
    if events == [] then jobs
    else NotedTable(Heard(jobs, events[..|events| - 1]), events[|events| - 1])
  }

  function HeardAll(jobs: seq<Job>, batches: seq<seq<Event>>): (r: seq<Job>)
    ensures |r| == |jobs|
  {
    if batches == [] then jobs
    else Heard(HeardAll(jobs, batches[..|batches| - 1]), batches[|batches| - 1])
  }

  /** The kernel reports nothing more about a process whose exit it has reported. */
  ghost predicate Legal(events: seq<Event>, reaped: set<int>) {
    events != [] ==> events[0].pid !in reaped && Legal(events[1..], ReapedBy(reaped, events[0]))
  }

  ghost function AllReaped(reaped: set<int>, events: seq<Event>): set<int>
    decreases |events|
  {
    if events == [] then reaped else AllReaped(ReapedBy(reaped, events[0]), events[1..])
  }

  ghost predicate LegalAll(batches: seq<seq<Event>>, reaped: set<int>)
    decreases |batches|
  {
    batches != [] ==> Legal(batches[0], reaped) && LegalAll(batches[1..], AllReaped(reaped, batches[0]))
  }

  ghost predicate At(home: map<int, Place>, pid: int, p: Place) {
    pid in home && home[pid] == p
  }

  ghost predicate JobsOk(jobs: seq<Job>, reaped: set<int>) {
    forall i {:trigger jobs[i]} :: 0 <= i < |jobs| ==> JobOk(jobs[i]) && Reaped(jobs[i], reaped)
  }

  ghost predicate SlotsOk(jobs: seq<Job>, home: map<int, Place>) {
    forall i: nat, pid {:trigger Member(jobs[i].proc, pid)} {:trigger At(home, pid, Slot(i))} ::
      i < |jobs| ==> (Member(jobs[i].proc, pid) <==> At(home, pid, Slot(i)))
  }

  ghost predicate GravesOk(buried: seq<Job>, home: map<int, Place>) {
    && (forall n: nat, pid {:trigger Member(buried[n].proc, pid)} {:trigger At(home, pid, Buried(n))} ::
      n < |buried| ==> (Member(buried[n].proc, pid) <==> At(home, pid, Buried(n))))
    && (forall n {:trigger buried[n]} :: 0 <= n < |buried| ==>
        JobOk(buried[n]) && buried[n].pgid != 0 && buried[n].state == Finished)
  }

  ghost predicate HomesOk(home: map<int, Place>, slots: nat, graves: nat) {
    forall pid {:trigger pid in home} :: pid in home ==>
      match home[pid] case Slot(i) => i < slots case Buried(n) => n < graves
  }

  /** True between any two steps.  Every process that was ever added is in exactly one place: a slot, or a job
      that was reported and deleted. */
  ghost predicate Inv(jobs: seq<Job>, home: map<int, Place>, reaped: set<int>, buried: seq<Job>) {
    && |jobs| > 0
    && JobsOk(jobs, reaped)
    && SlotsOk(jobs, home)
    && GravesOk(buried, home)
    && HomesOk(home, |jobs|, |buried|)
  }

  /** No process is in two slots, or in a slot and in a deleted job, or in two deleted jobs. */
  lemma OnePlace(jobs: seq<Job>, home: map<int, Place>, reaped: set<int>, buried: seq<Job>, pid: int)
    requires Inv(jobs, home, reaped, buried)
    ensures forall i: nat, j: nat ::
            i < |jobs| && j < |jobs| && Member(jobs[i].proc, pid) && Member(jobs[j].proc, pid) ==> i == j
    ensures forall n: nat, m: nat ::
            n < |buried| && m < |buried| && Member(buried[n].proc, pid) && Member(buried[m].proc, pid) ==> n == m
    ensures forall i: nat, n: nat :: i < |jobs| && n < |buried| ==>
            !(Member(jobs[i].proc, pid) && Member(buried[n].proc, pid))
    ensures pid in home <==>
              || (exists i: nat :: i < |jobs| && Member(jobs[i].proc, pid))
              || (exists n: nat :: n < |buried| && Member(buried[n].proc, pid))
  {
    hide Member, JobsOk;
    if pid in home {
      match home[pid]
      case Slot(i) => assert At(home, pid, Slot(i));
      case Buried(n) => assert At(home, pid, Buried(n));
    }
  }

  /** The processes in `added` are new; the others keep their record, and once a job is deleted it stays deleted. */
  ghost predicate Kept(home: map<int, Place>, home': map<int, Place>, added: set<int>) {
    && home'.Keys == home.Keys + added
    && forall pid {:trigger pid in home} :: pid in home && home[pid].Buried? ==> home'[pid] == home[pid]
  }

  lemma KeptKept(a: map<int, Place>, b: map<int, Place>, c: map<int, Place>, s: set<int>, t: set<int>)
    requires Kept(a, b, s) && Kept(b, c, t)
    ensures Kept(a, c, s + t)
  {
    assert forall pid :: pid in a ==> pid in b.Keys;
  }

  lemma NotedInv(jobs: seq<Job>, home: map<int, Place>, reaped: set<int>, buried: seq<Job>, e: Event)
    requires Inv(jobs, home, reaped, buried) && e.pid !in reaped
    ensures Inv(NotedTable(jobs, e), home, ReapedBy(reaped, e), buried)
  {
    hide JobOk, Reaped, Member, NotedJob, ReapedBy, GravesOk, HomesOk;
    forall i | 0 <= i < |jobs|
      ensures JobOk(NotedJob(jobs[i], e)) && Reaped(NotedJob(jobs[i], e), ReapedBy(reaped, e))
      ensures forall pid {:trigger Member(NotedJob(jobs[i], e).proc, pid)} ::
              Member(NotedJob(jobs[i], e).proc, pid) <==> Member(jobs[i].proc, pid)
    {
      NotedJobOk(jobs[i], e, reaped);
    }
  }

  function FirstFreeFrom(jobs: seq<Job>, j: nat): (r: nat)
    requires j <= |jobs|
    ensures j <= r <= |jobs| && (r < |jobs| ==> jobs[r].pgid == 0)
    ensures forall i :: j <= i < r ==> jobs[i].pgid != 0
    decreases |jobs| - j
  {
    if j == |jobs| || jobs[j].pgid == 0 then j else FirstFreeFrom(jobs, j + 1)
  }

  /** The background slot a job is put in: the first free one, or a new one. */
  function FirstFree(jobs: seq<Job>): (r: nat)
    requires |jobs| > 0
    ensures BG <= r <= |jobs| && (r < |jobs| ==> jobs[r].pgid == 0)
    ensures forall i :: BG <= i < r ==> jobs[i].pgid != 0
  {
    FirstFreeFrom(jobs, BG)
  }

  lemma {:induction false} FirstFreeFromIs(jobs: seq<Job>, j: nat, k: nat)
    requires j <= k < |jobs| && jobs[k].pgid == 0 && forall i :: j <= i < k ==> jobs[i].pgid != 0
    ensures FirstFreeFrom(jobs, j) == k
    decreases k - j
  {
    if j < k {
      FirstFreeFromIs(jobs, j + 1, k);
    }
  }

  /** The table with slot `j` there. */
  function Room(jobs: seq<Job>, j: nat): (r: seq<Job>)
    requires j <= |jobs|
    ensures j < |r|
  {
    if j < |jobs| then jobs else jobs + [FREE]
  }

  function Moved(jobs: seq<Job>, from: nat, to: nat): (r: seq<Job>)
    requires from < |jobs| && to < |jobs|
    ensures |r| == |jobs|
  {
    jobs[to := jobs[from]][from := FREE]
  }

  /** The status of a pipeline is that of its last process. */
  function LastStatus(b: Job): Status
    requires b.proc != []
  {
    b.proc[|b.proc| - 1].exitcode
  }

  function Code(s: Status): int {
    match s
    case Unset => 0
    case Exited(code) => code
    case Killed(signal) => signal
  }

  /** What becomes of the foreground slot when the job in it is no longer running. */
  function Settled(jobs: seq<Job>): (r: seq<Job>)
    requires |jobs| > 0
    ensures |r| > 0
  {
    if jobs[FG].state == Finished then jobs[FG := FREE] else Moved(Room(jobs, FirstFree(jobs)), FG, FirstFree(jobs))
  }

  function JobCode(b: Job): int {
    if b.state == Finished && b.proc != [] then Code(LastStatus(b)) else 0
  }

  // ----- what the steps keep ----------------------------------------------------------------------------

  lemma NoMembers(b: Job)
    requires b.proc == []
    ensures forall pid :: !Member(b.proc, pid)
  {
  }

  lemma RoomInv(jobs: seq<Job>, home: map<int, Place>, reaped: set<int>, buried: seq<Job>, j: nat)
    requires Inv(jobs, home, reaped, buried) && j <= |jobs|
    ensures Inv(Room(jobs, j), home, reaped, buried)
  {
    hide Member, GravesOk;
    NoMembers(FREE);
    forall i: nat, pid | i < |Room(jobs, j)|
      ensures Member(Room(jobs, j)[i].proc, pid) <==> At(home, pid, Slot(i))
    {
      if i < |jobs| {
        assert Member(jobs[i].proc, pid) <==> At(home, pid, Slot(i));
      }
    }
  }

  /** A job without processes takes a free slot. */
  lemma OpenedInv(jobs: seq<Job>, home: map<int, Place>, reaped: set<int>, buried: seq<Job>, j: nat, b: Job)
    requires Inv(jobs, home, reaped, buried) && j < |jobs| && jobs[j].pgid == 0
    requires JobOk(b) && b.proc == []
    ensures Inv(jobs[j := b], home, reaped, buried)
  {
    hide Member, GravesOk, HomesOk;
    assert JobOk(jobs[j]);
    forall i: nat, pid | i < |jobs|
      ensures Member(jobs[j := b][i].proc, pid) <==> At(home, pid, Slot(i))
    {
      assert Member(jobs[i].proc, pid) <==> At(home, pid, Slot(i));
    }
  }

  lemma MemberSnoc(ps: seq<Proc>, p: Proc, pid: int)
    ensures Member(ps + [p], pid) <==> Member(ps, pid) || pid == p.pid
  {
    if Member(ps, pid) {
      var k :| 0 <= k < |ps| && ps[k].pid == pid;
      assert (ps + [p])[k].pid == pid;
    }
    assert (ps + [p])[|ps|] == p;
  }

  /** A job that is being set up. */
  predicate Starting(b: Job) {
    b.pgid > 0 && b.state == Running && Share(b.proc, Running)
  }

  function WithProc(b: Job, pid: int, argv: seq<string>): Job
    requires argv != []
  {
    b.(proc := b.proc + [Proc(pid, Running, Unset)], command := Some(Extended(b.command, argv)))
  }

  lemma WithProcOk(b: Job, pid: int, argv: seq<string>, reaped: set<int>)
    requires JobOk(b) && Starting(b) && !Member(b.proc, pid) && argv != [] && Reaped(b, reaped)
    ensures JobOk(WithProc(b, pid, argv)) && Starting(WithProc(b, pid, argv)) && Reaped(WithProc(b, pid, argv), reaped)
  {
    var c := WithProc(b, pid, argv);
    assert c.proc[|b.proc|].state == Running;
    assert forall k :: 0 <= k < |b.proc| ==> c.proc[k] == b.proc[k] && b.proc[k].pid != pid;
  }

  lemma WithProcInv(jobs: seq<Job>, home: map<int, Place>, reaped: set<int>, buried: seq<Job>, j: nat, pid: int,
                    argv: seq<string>)
    requires Inv(jobs, home, reaped, buried) && j < |jobs| && Starting(jobs[j]) && pid !in home && argv != []
    ensures var home' := home[pid := Slot(j)];
            Inv(jobs[j := WithProc(jobs[j], pid, argv)], home', reaped, buried) && Kept(home, home', {pid})
  {
    hide Member, JobOk, Reaped, Starting, Extended;
    var home' := home[pid := Slot(j)];
    var jobs' := jobs[j := WithProc(jobs[j], pid, argv)];
    assert JobOk(jobs[j]);
    assert !At(home, pid, Slot(j));
    WithProcOk(jobs[j], pid, argv, reaped);
    forall i: nat, q | i < |jobs|
      ensures Member(jobs'[i].proc, q) <==> At(home', q, Slot(i))
    {
      assert Member(jobs[i].proc, q) <==> At(home, q, Slot(i));
      MemberSnoc(jobs[j].proc, Proc(pid, Running, Unset), q);
    }
    forall n: nat, q | n < |buried|
      ensures Member(buried[n].proc, q) <==> At(home', q, Buried(n))
    {
      assert Member(buried[n].proc, q) <==> At(home, q, Buried(n));
    }
  }

  ghost function Rehomed(home: map<int, Place>, from: Place, to: Place): map<int, Place> {
    map pid | pid in home :: if home[pid] == from then to else home[pid]
  }

  lemma RehomedAt(home: map<int, Place>, from: Place, to: Place, pid: int, p: Place)
    requires from != to && !At(home, pid, to)
    ensures At(Rehomed(home, from, to), pid, p) <==>
            (if p == to then At(home, pid, from) else p != from && At(home, pid, p))
  {
  }

  lemma MovedInv(jobs: seq<Job>, home: map<int, Place>, reaped: set<int>, buried: seq<Job>, from: nat, to: nat)
    requires Inv(jobs, home, reaped, buried) && from < |jobs| && to < |jobs| && from != to && jobs[to].pgid == 0
    ensures var home' := Rehomed(home, Slot(from), Slot(to));
            Inv(Moved(jobs, from, to), home', reaped, buried) && Kept(home, home', {})
  {
    hide Member;
    var home' := Rehomed(home, Slot(from), Slot(to));
    var jobs' := Moved(jobs, from, to);
    assert JobOk(jobs[from]) && JobOk(jobs[to]);
    NoMembers(FREE);
    forall i: nat, q | i < |jobs|
      ensures Member(jobs'[i].proc, q) <==> At(home', q, Slot(i))
    {
      assert Member(jobs[to].proc, q) <==> At(home, q, Slot(to));
      assert Member(jobs[from].proc, q) <==> At(home, q, Slot(from));
      assert Member(jobs[i].proc, q) <==> At(home, q, Slot(i));
      RehomedAt(home, Slot(from), Slot(to), q, Slot(i));
    }
    forall n: nat, q | n < |buried|
      ensures Member(buried[n].proc, q) <==> At(home', q, Buried(n))
    {
      assert Member(jobs[to].proc, q) <==> At(home, q, Slot(to));
      assert Member(buried[n].proc, q) <==> At(home, q, Buried(n));
      RehomedAt(home, Slot(from), Slot(to), q, Buried(n));
    }
  }

  lemma BuriedInv(jobs: seq<Job>, home: map<int, Place>, reaped: set<int>, buried: seq<Job>, j: nat)
    requires Inv(jobs, home, reaped, buried) && j < |jobs| && jobs[j].pgid != 0 && jobs[j].state == Finished
    ensures var home' := Rehomed(home, Slot(j), Buried(|buried|));
      Inv(jobs[j := FREE], home', reaped, buried + [jobs[j]]) && Kept(home, home', {})
  {
    hide Member;
    var home', buried' := Rehomed(home, Slot(j), Buried(|buried|)), buried + [jobs[j]];
    var jobs' := jobs[j := FREE];
    assert JobOk(jobs[j]);
    NoMembers(FREE);
    forall i: nat, q | i < |jobs|
      ensures Member(jobs'[i].proc, q) <==> At(home', q, Slot(i))
    {
      assert Member(jobs[i].proc, q) <==> At(home, q, Slot(i));
      RehomedAt(home, Slot(j), Buried(|buried|), q, Slot(i));
    }
    forall n: nat, q | n < |buried'|
      ensures Member(buried'[n].proc, q) <==> At(home', q, Buried(n))
    {
      assert Member(jobs[j].proc, q) <==> At(home, q, Slot(j));
      if n < |buried| {
        assert Member(buried[n].proc, q) <==> At(home, q, Buried(n));
      }
      RehomedAt(home, Slot(j), Buried(|buried|), q, Buried(n));
    }
  }

  // ----- waiting, starting and reporting ----------------------------------------------------------------

  /** Status reports change neither the number of slots nor which of them are free. */
  lemma {:induction false} HeardSame(jobs: seq<Job>, events: seq<Event>, i: nat)
    requires i < |jobs|
    ensures Heard(jobs, events)[i].pgid == jobs[i].pgid && (jobs[i] == FREE ==> Heard(jobs, events)[i] == FREE)
  {
    if events != [] {
      HeardSame(jobs, events[..|events| - 1], i);
    }
  }

  lemma {:induction false} HeardAllSame(jobs: seq<Job>, batches: seq<seq<Event>>, i: nat)
    requires i < |jobs|
    ensures HeardAll(jobs, batches)[i].pgid == jobs[i].pgid
  {
    if batches != [] {
      HeardAllSame(jobs, batches[..|batches| - 1], i);
      HeardSame(HeardAll(jobs, batches[..|batches| - 1]), batches[|batches| - 1], i);
    }
  }

  /** The shell started to wait for the foreground job in table `start`, was interrupted `n` times, and the table
      is `jobs` now: it stopped waiting as soon as the job was no longer running, or it still waits. */
  ghost predicate Waited(start: seq<Job>, batches: seq<seq<Event>>, n: nat, jobs: seq<Job>, done: bool)
    requires |start| > 0
  {
    && n <= |batches|
    && (forall k {:trigger batches[..k]} :: 0 <= k < n ==> HeardAll(start, batches[..k])[FG].state == Running)
    && if done then
        HeardAll(start, batches[..n])[FG].state != Running && jobs == Settled(HeardAll(start, batches[..n]))
       else
        n == |batches| && HeardAll(start, batches)[FG].state == Running && jobs == HeardAll(start, batches)
  }

  /** `fg` gives up at once on exactly the jobs that are stopped when it is called; any other job it waits for, until a
      report changes its state. */
  lemma ForegroundExact(jobs: seq<Job>, j: nat, batches: seq<seq<Event>>, n: nat, jobs': seq<Job>, done: bool)
    requires 0 < j < |jobs| && jobs[FG] == FREE && jobs[j].state != Finished
    requires Waited(Moved(jobs, j, FG), batches, n, jobs', done)
    ensures done && n == 0 <==> jobs[j].state == Stopped
    ensures done && jobs[j].state == Running ==>
            HeardAll(Moved(jobs, j, FG), batches[..n])[FG].state != Running && n > 0
  {
    var start := Moved(jobs, j, FG);
    assert batches[..0] == [];
    assert HeardAll(start, []) == start;
  }

  /** `fg` does not wait for a job that is stopped, because the job still counts as stopped when the waiting
      starts: it goes straight back to the background, where it was unless a lower slot is free. */
  lemma StoppedGoesBack(jobs: seq<Job>, j: nat, batches: seq<seq<Event>>, n: nat, jobs': seq<Job>, done: bool)
    requires 0 < j < |jobs| && jobs[FG] == FREE && jobs[j].pgid != 0 && jobs[j].state == Stopped
    requires Waited(Moved(jobs, j, FG), batches, n, jobs', done)
    ensures done && n == 0 && jobs'[FG] == FREE
    ensures var k := FirstFree(jobs[j := FREE]); k <= j && jobs' == jobs[j := FREE][k := jobs[j]]
    ensures (forall i :: BG <= i < j ==> jobs[i].pgid != 0) ==> jobs' == jobs
  {
    var start := Moved(jobs, j, FG);
    assert batches[..0] == [];
    assert HeardAll(start, []) == start;
    var freed := jobs[j := FREE];
    var k := FirstFree(freed);
    assert freed[j].pgid == 0;
    forall i | BG <= i < k
      ensures start[i].pgid != 0
    {
      assert freed[i].pgid != 0;
    }
    FirstFreeFromIs(start, BG, k);
    assert jobs' == Moved(start, FG, k) == freed[k := jobs[j]];
  }

  datatype Stage = Stage(pid: int, argv: seq<string>)

  ghost predicate Fresh(stages: seq<Stage>, known: set<int>) {
    && (forall i :: 0 <= i < |stages| ==> stages[i].pid > 0 && stages[i].pid !in known && stages[i].argv != [])
    && (forall i, k :: 0 <= i < k < |stages| ==> stages[i].pid != stages[k].pid)
  }

  function Argvs(stages: seq<Stage>): seq<seq<string>> {
    seq(|stages|, i requires 0 <= i < |stages| => stages[i].argv)
  }

  /** A new job with the processes of the first stages. */
  function Launched(pgid: int, stages: seq<Stage>): Job
    requires forall i :: 0 <= i < |stages| ==> stages[i].argv != []
  {
    if stages == [] then Job(pgid, [], Running, None)
    else var n := |stages| - 1; WithProc(Launched(pgid, stages[..n]), stages[n].pid, stages[n].argv)
  }

  /** It has one process for each stage, and its text is the one that is tokenized back into the stages. */
  lemma {:induction false} LaunchedIs(pgid: int, stages: seq<Stage>)
    requires forall i :: 0 <= i < |stages| ==> stages[i].argv != []
    ensures var b := Launched(pgid, stages);
      && b.pgid == pgid && b.state == Running && b.command == Command(Argvs(stages))
      && |b.proc| == |stages| && forall i :: 0 <= i < |stages| ==> b.proc[i] == Proc(stages[i].pid, Running, Unset)
  {
    if stages != [] {
      var n := |stages| - 1;
      LaunchedIs(pgid, stages[..n]);
      assert Argvs(stages)[..n] == Argvs(stages[..n]);
    }
  }

  /** What is printed about a job. */
  datatype Message = Runs | Suspended | ExitedWith(status: int) | KilledBy(signal: int)

  datatype Report = Report(j: nat, job: Job, said: Message)

  function Said(b: Job): Message {
    match b.state
    case Running => Runs
    case Stopped => Suspended
    case Finished =>
      if b.proc != [] && LastStatus(b).Killed? then KilledBy(LastStatus(b).signal) else ExitedWith(JobCode(b))
  }

  /** Whether a slot is reported; no state stands for `ALL`. */
  predicate Reportable(b: Job, which: Option<State>) {
    b.pgid != 0 && (which.Some? ==> b.state == which.value)
  }

  function Swept(b: Job, which: Option<State>): Job {
    if Reportable(b, which) && b.state == Finished then FREE else b
  }

  /** The table and the reports when `watchjobs` has come to slot `j`.  Before each slot the handler may run. */
  function Watched(jobs: seq<Job>, which: Option<State>, batches: seq<seq<Event>>, j: nat): (r: (seq<Job>, seq<Report>))
    requires 1 <= j <= |jobs|
    ensures |r.0| == |jobs|
  {
    if j == 1 then (jobs, []) else
      var i := j - 1;
      var before := Watched(jobs, which, batches, i);
      var now := if i <= |batches| then Heard(before.0, batches[i - 1]) else before.0;
      var seen := if Reportable(now[i], which) then [Report(i, now[i], Said(now[i]))] else [];
      (now[i := Swept(now[i], which)], before.1 + seen)
  }

  lemma {:induction false} WatchedSlots(jobs: seq<Job>, which: Option<State>, j: nat)
    requires 1 <= j <= |jobs|
    ensures var r := Watched(jobs, which, [], j);
      && (forall i :: 0 <= i < |jobs| ==> r.0[i] == if BG <= i < j then Swept(jobs[i], which) else jobs[i])
      && (forall i :: BG <= i < j ==> (Report(i, jobs[i], Said(jobs[i])) in r.1 <==> Reportable(jobs[i], which)))
      && (forall p :: p in r.1 ==> BG <= p.j < j && p.job == jobs[p.j] && p.said == Said(p.job))
      && (forall k, l :: 0 <= k < l < |r.1| ==> r.1[k].j < r.1[l].j)
  {
    hide Said, Heard, Swept, Reportable, Watched;
    if j == 1 {
      WatchedNone(jobs, which, []);
    } else {
      WatchedSlots(jobs, which, j - 1);
      WatchedStep(jobs, which, [], j - 1);
      var before := Watched(jobs, which, [], j - 1);
      assert forall k :: 0 <= k < |before.1| ==> before.1[k] in before.1;
    }
  }

  /** When no child changes its status meanwhile, every job asked for is reported, in the order of the slots,
      and the finished ones among them are the ones that are deleted. */
  lemma WatchedQuietly(jobs: seq<Job>, which: Option<State>, j: nat)
    requires 1 <= j <= |jobs|
    ensures var r := Watched(jobs, which, [], j);
      && (forall i :: 0 <= i < |jobs| ==>
            r.0[i] == if 1 <= i < j && jobs[i].pgid != 0 && jobs[i].state == Finished && which != Some(Running)
                         && which != Some(Stopped) then Job(0, [], Finished, None) else jobs[i])
      && (forall i :: 1 <= i < j ==>
            (Report(i, jobs[i], Said(jobs[i])) in r.1 <==>
             jobs[i].pgid != 0 && (which == None || which == Some(jobs[i].state))))
      && (forall p :: p in r.1 ==> 1 <= p.j < j && p.job == jobs[p.j] && p.said == Said(p.job))
      && (forall k, l :: 0 <= k < l < |r.1| ==> r.1[k].j < r.1[l].j)
  {
    hide Watched, Said;
    WatchedSlots(jobs, which, j);
  }

  function FinishedOf(reports: seq<Report>): seq<Job> {
    if reports == [] then [] else
      var p := reports[|reports| - 1];
      FinishedOf(reports[..|reports| - 1]) + if p.job.state == Finished then [p.job] else []
  }

  lemma SlotAt(jobs: seq<Job>, home: map<int, Place>, reaped: set<int>, buried: seq<Job>, j: nat, pid: int)
    requires Inv(jobs, home, reaped, buried) && j < |jobs|
    ensures JobOk(jobs[j]) && Reaped(jobs[j], reaped) && (Member(jobs[j].proc, pid) <==> At(home, pid, Slot(j)))
  {
  }

  /** When a job has finished, so has its last process, and its status is known. */
  lemma FinishedKnown(jobs: seq<Job>, reaped: set<int>, j: nat)
    requires JobsOk(jobs, reaped) && j < |jobs| && jobs[j].pgid != 0 && jobs[j].state == Finished
    ensures jobs[j].proc != [] && LastStatus(jobs[j]) != Unset
  {
    assert JobOk(jobs[j]);
  }

  /** The table after the next batch, and the foreground slot still taken. */
  lemma Waiting(start: seq<Job>, batches: seq<seq<Event>>, n: nat)
    requires n <= |batches| && |start| > 0
    ensures n == 0 ==> HeardAll(start, batches[..n]) == start && batches[n..] == batches
    ensures n > 0 ==>
      HeardAll(start, batches[..n]) == Heard(HeardAll(start, batches[..n - 1]), batches[n - 1]) &&
      batches[n..] == batches[n - 1..][1..] && batches[n - 1] == batches[n - 1..][0]
    ensures HeardAll(start, batches[..n])[FG].pgid == start[FG].pgid
  {
    hide Heard;
    HeardAllSame(start, batches[..n], FG);
    if n > 0 {
      assert batches[..n][..n - 1] == batches[..n - 1];
    }
  }

  lemma KeptSelf(home: map<int, Place>)
    ensures Kept(home, home, {})
  {
  }

  lemma HeardFree(jobs: seq<Job>, i: nat)
    requires i < |jobs|
    ensures forall events {:trigger Heard(jobs, events)} :: jobs[i] == FREE ==> Heard(jobs, events)[i] == FREE
  {
    forall events {:trigger Heard(jobs, events)} | jobs[i] == FREE
      ensures Heard(jobs, events)[i] == FREE
    {
      HeardSame(jobs, events, i);
    }
  }

  function HighestBelow(jobs: seq<Job>, k: nat): (r: nat)
    requires k < |jobs|
    ensures r <= k && (r > 0 ==> jobs[r].state != Finished)
    ensures forall i :: r < i <= k ==> jobs[i].state == Finished
  {
    if k == 0 || jobs[k].state != Finished then k else HighestBelow(jobs, k - 1)
  }

  /** The highest slot whose job has not finished, or the foreground slot. */
  function Highest(jobs: seq<Job>): (r: nat)
    requires |jobs| > 0
    ensures r < |jobs| && (r > 0 ==> jobs[r].state != Finished)
    ensures forall i :: r < i < |jobs| ==> jobs[i].state == Finished
  {
    HighestBelow(jobs, |jobs| - 1)
  }

  function PidsOf(stages: seq<Stage>): set<int> {
    set i | 0 <= i < |stages| :: stages[i].pid
  }

  lemma PidsSnoc(stages: seq<Stage>, n: nat)
    requires n < |stages|
    ensures PidsOf(stages[..n + 1]) == PidsOf(stages[..n]) + {stages[n].pid}
  {
    assert stages[..n + 1][n] == stages[n];
    assert forall i :: 0 <= i < n ==> stages[..n + 1][i] == stages[..n][i];
  }

  /** What is typed at the prompt. */
  datatype Request = Run(bg: bool, stages: seq<Stage>) | Resume(j: int, bg: bool) | Watch(which: Option<State>)

  ghost predicate FreshFor(r: Request, known: set<int>) {
    r.Run? ==> r.stages != [] && Fresh(r.stages, known)
  }

  function Added(r: Request): set<int> {
    if r.Run? then PidsOf(r.stages) else {}
  }

  /** The processes that some commands start. */
  function AllAdded(requests: seq<Request>): set<int> {
    if requests == [] then {} else AllAdded(requests[..|requests| - 1]) + Added(requests[|requests| - 1])
  }

  lemma AddedMore(requests: seq<Request>, i: nat)
    requires i < |requests|
    ensures AllAdded(requests[..i + 1]) == AllAdded(requests[..i]) + Added(requests[i])
  {
    assert requests[..i + 1][..i] == requests[..i];
  }

  lemma NothingAdded(requests: seq<Request>)
    ensures AllAdded(requests[..0]) == {}
  {
  }

  /** Every process that a run starts has a number of its own. */
  ghost predicate FreshAll(requests: seq<Request>, known: set<int>)
    decreases |requests|
  {
    requests != [] ==> FreshFor(requests[0], known) && FreshAll(requests[1..], known + Added(requests[0]))
  }

  lemma KeptKeys(home: map<int, Place>, home': map<int, Place>, added: set<int>)
    requires Kept(home, home', added)
    ensures home'.Keys == home.Keys + added
  {
  }

  lemma NotYet(home: map<int, Place>, home': map<int, Place>, stages: seq<Stage>, n: nat)
    requires n < |stages| && Fresh(stages, home.Keys) && Kept(home, home', PidsOf(stages[..n]))
    ensures stages[n].pid !in home' && stages[n].argv != []
  {
    assert stages[n].pid !in PidsOf(stages[..n]);
    assert stages[n].pid !in home.Keys;
  }

  lemma KeptStill(a: map<int, Place>, b: map<int, Place>, c: map<int, Place>, s: set<int>)
    requires Kept(a, b, s) && Kept(b, c, {})
    ensures Kept(a, c, s)
  {
    KeptKept(a, b, c, s, {});
    assert s + {} == s;
  }

  lemma FirstFresh(stages: seq<Stage>, home: map<int, Place>)
    requires stages != [] && Fresh(stages, home.Keys)
    ensures stages[0].pid > 0 && PidsOf(stages[..0]) == {} && forall i :: 0 <= i < |stages| ==> stages[i].argv != []
  {
  }

  lemma WatchedNone(jobs: seq<Job>, which: Option<State>, batches: seq<seq<Event>>)
    requires |jobs| > 0
    ensures Watched(jobs, which, batches, 1) == (jobs, []) && FinishedOf([]) == []
  {
  }

  lemma WatchedStep(jobs: seq<Job>, which: Option<State>, batches: seq<seq<Event>>, j: nat)
    requires 1 <= j < |jobs|
    ensures var before := Watched(jobs, which, batches, j);
      var now := if j <= |batches| then Heard(before.0, batches[j - 1]) else before.0;
      var seen := if Reportable(now[j], which) then [Report(j, now[j], Said(now[j]))] else [];
      Watched(jobs, which, batches, j + 1) == (now[j := Swept(now[j], which)], before.1 + seen)
  {
    hide Heard, Swept, Reportable, Said;
  }

  lemma FinishedConcat(a: seq<Report>, b: seq<Report>)
    requires |b| <= 1
    ensures FinishedOf(a + b) == FinishedOf(a) + FinishedOf(b)
  {
    if b == [] {
      assert a + b == a;
    } else {
      assert (a + b)[..|a|] == a && b[..0] == [];
    }
  }
}
