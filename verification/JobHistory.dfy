/** The job table against everything that was ever reported: each process is recorded as the last report about it says,
    so what the shell tells its user can be said in terms of the reports alone. */
module JobHistory {
  import opened Jobs
  import opened Sequences

  /** Report `i` is the last one about the process since number `from`. */
  predicate Latest(heard: seq<Event>, from: nat, i: nat, pid: int) {
    from <= i < |heard| && heard[i].pid == pid && forall j :: i < j < |heard| ==> heard[j].pid != pid
  }

  predicate Silent(heard: seq<Event>, from: nat, pid: int) {
    forall j :: from <= j < |heard| ==> heard[j].pid != pid
  }

  /** The process is recorded as the report says. */
  predicate Shows(e: Event, p: Proc) {
    match e
    case Exit(_, code) => p.state == Finished && p.exitcode == Exited(code)
    case Kill(_, signal) => p.state == Finished && p.exitcode == Killed(signal)
    case Stop(_) => p.state == Stopped && p.exitcode == Unset
    case Continue(_) => p.state == Running && p.exitcode == Unset
  }

  /** A process that was started after `from` reports runs until something is reported about it. */
  ghost predicate Tells(heard: seq<Event>, from: nat, p: Proc) {
    if Silent(heard, from, p.pid) then p.state == Running && p.exitcode == Unset
    else exists i: nat :: Latest(heard, from, i, p.pid) && Shows(heard[i], p)
  }

  ghost predicate Told(ps: seq<Proc>, heard: seq<Event>, born: map<int, nat>) {
    forall k {:trigger ps[k]} :: 0 <= k < |ps| ==>
      ps[k].pid in born && born[ps[k].pid] <= |heard| && Tells(heard, born[ps[k].pid], ps[k])
  }

  ghost predicate TableTold(jobs: seq<Job>, heard: seq<Event>, born: map<int, nat>) {
    forall i {:trigger jobs[i]} :: 0 <= i < |jobs| ==> Told(jobs[i].proc, heard, born)
  }

  /** The exit of a process is the last thing that is reported about it. */
  ghost predicate Finals(heard: seq<Event>, reaped: set<int>) {
    forall i {:trigger heard[i]} :: 0 <= i < |heard| && (heard[i].Exit? || heard[i].Kill?) ==>
      heard[i].pid in reaped && forall j :: i < j < |heard| ==> heard[j].pid != heard[i].pid
  }

  /** The end of the process is among the reports. */
  predicate Ended(events: seq<Event>, pid: int) {
    exists i :: 0 <= i < |events| && events[i].pid == pid && (events[i].Exit? || events[i].Kill?)
  }

  // ---------------------------------------------------------------- what the kernel may report

  /** Nothing is reported about a process after its end. */
  ghost predicate Orderly(events: seq<Event>, reaped: set<int>) {
    && (forall i :: 0 <= i < |events| ==> events[i].pid !in reaped)
    && forall i, j :: 0 <= i < j < |events| && (events[i].Exit? || events[i].Kill?) ==> events[j].pid != events[i].pid
  }

  lemma {:induction false} LegalExact(events: seq<Event>, reaped: set<int>)
    ensures Legal(events, reaped) <==> Orderly(events, reaped)
  {
    if events != [] {
      var tail := events[1..];
      LegalExact(tail, ReapedBy(reaped, events[0]));
      assert forall i :: 0 < i < |events| ==> events[i] == tail[i - 1];
      if Orderly(events, reaped) {
        assert forall i :: 0 <= i < |tail| ==> tail[i] == events[i + 1];
        assert Orderly(tail, ReapedBy(reaped, events[0]));
      }
    }
  }

  lemma {:induction false} LegalConcat(a: seq<Event>, b: seq<Event>, reaped: set<int>)
    ensures Legal(a + b, reaped) <==> Legal(a, reaped) && Legal(b, AllReaped(reaped, a))
  {
    if a == [] {
      assert a + b == b;
    } else {
      assert (a + b)[1..] == a[1..] + b;
      LegalConcat(a[1..], b, ReapedBy(reaped, a[0]));
    }
  }

  lemma {:induction false} ConcatHead(batches: seq<seq<Event>>)
    requires batches != []
    ensures Concat(batches) == batches[0] + Concat(batches[1..])
  {
    var n := |batches| - 1;
    if n > 0 {
      ConcatHead(batches[..n]);
      assert batches[..n][1..] == batches[1..][..n - 1];
    }
  }

  lemma {:induction false} LegalAllConcat(batches: seq<seq<Event>>, reaped: set<int>)
    ensures LegalAll(batches, reaped) <==> Legal(Concat(batches), reaped)
    decreases |batches|
  {
    hide Legal, AllReaped, Concat;
    if batches == [] {
      NothingLegal(reaped);
    } else {
      ConcatHead(batches);
      LegalConcat(batches[0], Concat(batches[1..]), reaped);
      LegalAllConcat(batches[1..], AllReaped(reaped, batches[0]));
    }
  }

  lemma NothingLegal(reaped: set<int>)
    ensures Concat<Event>([]) == [] && Legal([], reaped)
  {
  }

  /** The runs considered are those in which nothing is reported about a process after its end. */
  lemma LegalAllExact(batches: seq<seq<Event>>)
    ensures LegalAll(batches, {}) <==> Orderly(Concat(batches), {})
  {
    LegalAllConcat(batches, {});
    LegalExact(Concat(batches), {});
  }

  // ---------------------------------------------------------------- one report

  lemma FinalsMore(heard: seq<Event>, reaped: set<int>, e: Event)
    requires Finals(heard, reaped) && e.pid !in reaped
    ensures Finals(heard + [e], ReapedBy(reaped, e))
  {
    var more := heard + [e];
    forall i {:trigger more[i]} | 0 <= i < |more| && (more[i].Exit? || more[i].Kill?)
      ensures more[i].pid in ReapedBy(reaped, e) && forall j :: i < j < |more| ==> more[j].pid != more[i].pid
    {
      if i < |heard| {
        assert heard[i].pid in reaped;
      }
    }
  }

  lemma TellsMore(heard: seq<Event>, from: nat, p: Proc, e: Event, p': Proc)
    requires from <= |heard| && Tells(heard, from, p) && p'.pid == p.pid
    requires if e.pid == p.pid then Shows(e, p') else p' == p
    ensures Tells(heard + [e], from, p')
  {
    var more := heard + [e];
    assert forall j :: 0 <= j < |heard| ==> more[j] == heard[j];
    assert more[|heard|] == e;
    if e.pid == p.pid {
      assert Latest(more, from, |heard|, p.pid);
    } else if !Silent(heard, from, p.pid) {
      var i: nat :| Latest(heard, from, i, p.pid) && Shows(heard[i], p);
      assert Latest(more, from, i, p.pid);
    }
  }

  lemma NotedTold(b: Job, e: Event, reaped: set<int>, heard: seq<Event>, born: map<int, nat>)
    requires JobOk(b) && Reaped(b, reaped) && e.pid !in reaped && Told(b.proc, heard, born)
    ensures Told(NotedJob(b, e).proc, heard + [e], born)
  {
    var ps, qs := b.proc, NotedJob(b, e).proc;
    forall k {:trigger qs[k]} | 0 <= k < |qs|
      ensures qs[k].pid in born && born[qs[k].pid] <= |heard + [e]| && Tells(heard + [e], born[qs[k].pid], qs[k])
    {
      assert ps[k].pid == qs[k].pid;
      TellsMore(heard, born[ps[k].pid], ps[k], e, qs[k]);
    }
  }

  lemma NotedTableTold(jobs: seq<Job>, e: Event, reaped: set<int>, heard: seq<Event>, born: map<int, nat>)
    requires JobsOk(jobs, reaped) && e.pid !in reaped && TableTold(jobs, heard, born)
    ensures TableTold(NotedTable(jobs, e), heard + [e], born)
  {
    hide JobOk, Reaped, NotedJob, Told;
    forall i {:trigger NotedTable(jobs, e)[i]} | 0 <= i < |jobs|
      ensures Told(NotedTable(jobs, e)[i].proc, heard + [e], born)
    {
      NotedTold(jobs[i], e, reaped, heard, born);
    }
  }

  // ---------------------------------------------------------------- the other steps

  lemma NoneTold(heard: seq<Event>, born: map<int, nat>)
    ensures Told([], heard, born)
  {
  }

  lemma BornTold(jobs: seq<Job>, j: nat, b: Job, pid: int, heard: seq<Event>, born: map<int, nat>)
    requires j < |jobs| && TableTold(jobs, heard, born) && b.proc == jobs[j].proc + [Proc(pid, Running, Unset)]
    requires forall i :: 0 <= i < |jobs| ==> !Member(jobs[i].proc, pid)
    ensures TableTold(jobs[j := b], heard, born[pid := |heard|])
  {
    var born' := born[pid := |heard|];
    forall i {:trigger jobs[j := b][i]} | 0 <= i < |jobs|
      ensures Told(jobs[j := b][i].proc, heard, born')
    {
      OthersTold(jobs[i].proc, pid, heard, born);
      if i == j {
        assert Told(jobs[j].proc, heard, born');
        assert Tells(heard, |heard|, Proc(pid, Running, Unset));
      }
    }
  }

  lemma OthersTold(ps: seq<Proc>, pid: int, heard: seq<Event>, born: map<int, nat>)
    requires Told(ps, heard, born) && !Member(ps, pid)
    ensures Told(ps, heard, born[pid := |heard|])
  {
    hide Tells;
    forall k {:trigger ps[k]} | 0 <= k < |ps|
      ensures ps[k].pid != pid
    {
    }
  }

  // ---------------------------------------------------------------- what the user is told

  /** A process has finished exactly when its end was reported, and then with the status that was reported. */
  lemma EndTold(p: Proc, heard: seq<Event>, reaped: set<int>, from: nat)
    requires from <= |heard| && Tells(heard, from, p) && Finals(heard, reaped)
    ensures p.state == Finished <==> Ended(heard[from..], p.pid)
    ensures p.exitcode.Exited? ==> Exit(p.pid, p.exitcode.code) in heard[from..]
    ensures p.exitcode.Killed? ==> Kill(p.pid, p.exitcode.signal) in heard[from..]
  {
    var since := heard[from..];
    if !Silent(heard, from, p.pid) {
      var i: nat :| Latest(heard, from, i, p.pid) && Shows(heard[i], p);
      assert since[i - from] == heard[i];
      if Ended(since, p.pid) {
        var j :| 0 <= j < |since| && since[j].pid == p.pid && (since[j].Exit? || since[j].Kill?);
        assert heard[from + j] == since[j];
        assert from + j == i;
      }
    }
  }

  /** Nothing that was reported before had ended a process that has no status yet. */
  lemma StillTold(p: Proc, heard: seq<Event>, more: seq<Event>, reaped: set<int>, from: nat, c: int)
    requires from <= |heard| && Tells(heard, from, p) && p.exitcode == Unset && Finals(heard + more, reaped)
    requires Exit(p.pid, c) in (heard + more)[from..] || Kill(p.pid, c) in (heard + more)[from..]
    ensures Exit(p.pid, c) in more || Kill(p.pid, c) in more
  {
    hide Tells, Finals;
    var all := heard + more;
    var since := all[from..];
    var i :| 0 <= i < |since| && (since[i] == Exit(p.pid, c) || since[i] == Kill(p.pid, c));
    assert all[from + i] == since[i];
    if from + i < |heard| {
      NotBefore(p, heard, more, reaped, from, from + i);
    } else {
      assert more[from + i - |heard|] == all[from + i];
    }
  }

  lemma NotBefore(p: Proc, heard: seq<Event>, more: seq<Event>, reaped: set<int>, from: nat, k: nat)
    requires from <= k < |heard| && Tells(heard, from, p) && p.exitcode == Unset && Finals(heard + more, reaped)
    ensures heard[k].pid == p.pid ==> !heard[k].Exit? && !heard[k].Kill?
  {
    var all := heard + more;
    assert forall j :: 0 <= j < |heard| ==> all[j] == heard[j];
    if heard[k].pid == p.pid {
      var j: nat :| Latest(heard, from, j, p.pid) && Shows(heard[j], p);
      assert all[k] == heard[k] && all[j] == heard[j];
    }
  }

  /** What was reported since a process was started. */
  function Since(heard: seq<Event>, born: map<int, nat>, pid: int): seq<Event> {
    if pid in born && born[pid] <= |heard| then heard[born[pid]..] else []
  }

  /** The end of every process of the job was reported since it was started. */
  predicate AllEnded(ps: seq<Proc>, heard: seq<Event>, born: map<int, nat>) {
    ps != [] && forall k :: 0 <= k < |ps| ==> Ended(Since(heard, born, ps[k].pid), ps[k].pid)
  }

  /** A job has finished exactly when the end of each of its processes was reported. */
  lemma JobEnded(b: Job, heard: seq<Event>, reaped: set<int>, born: map<int, nat>)
    requires JobOk(b) && b.pgid != 0 && Told(b.proc, heard, born) && Finals(heard, reaped)
    ensures b.state == Finished <==> AllEnded(b.proc, heard, born)
  {
    hide Tells, Ended, Finals;
    forall k | 0 <= k < |b.proc|
      ensures b.proc[k].state == Finished <==> Ended(Since(heard, born, b.proc[k].pid), b.proc[k].pid)
    {
      EndTold(b.proc[k], heard, reaped, born[b.proc[k].pid]);
    }
  }

  /** Its code is the exit code or the signal that was reported about the last one. */
  lemma CodeTold(b: Job, heard: seq<Event>, reaped: set<int>, born: map<int, nat>)
    requires JobOk(b) && b.pgid != 0 && Told(b.proc, heard, born) && Finals(heard, reaped) && b.state == Finished
    ensures b.proc != []
    ensures var pid := b.proc[|b.proc| - 1].pid;
            Exit(pid, JobCode(b)) in Since(heard, born, pid) || Kill(pid, JobCode(b)) in Since(heard, born, pid)
  {
    hide Tells, Ended, Finals;
    var p := b.proc[|b.proc| - 1];
    EndTold(p, heard, reaped, born[p.pid]);
  }

  /** The same from the time the job was started or taken over, when it had the processes `ps`. */
  lemma CodeCarried(ps: seq<Proc>, b: Job, was: seq<Event>, more: seq<Event>, reaped: set<int>, born: map<int, nat>)
    requires Told(ps, was, born) && SamePids(ps, b.proc)
    requires JobOk(b) && b.pgid != 0 && Told(b.proc, was + more, born) && Finals(was + more, reaped)
    ensures b.state == Finished <==> AllEnded(ps, was + more, born)
    ensures b.state == Finished ==>
              var p := ps[|ps| - 1];
              var told := if p.exitcode == Unset then more else Since(was + more, born, p.pid);
              Exit(p.pid, JobCode(b)) in told || Kill(p.pid, JobCode(b)) in told
  {
    hide Tells, Finals, JobOk, JobCode;
    JobEnded(b, was + more, reaped, born);
    assert AllEnded(b.proc, was + more, born) <==> AllEnded(ps, was + more, born);
    if b.state == Finished {
      CodeTold(b, was + more, reaped, born);
      var p := ps[|ps| - 1];
      if p.exitcode == Unset {
        StillTold(p, was, more, reaped, born[p.pid], JobCode(b));
      }
    }
  }

  /** Of a job that was started after `was` all processes have ended when their ends are among the later reports. */
  lemma StartedEnded(ps: seq<Proc>, stages: seq<Stage>, was: seq<Event>, more: seq<Event>, born: map<int, nat>)
    requires |ps| == |stages| > 0
    requires forall i :: 0 <= i < |stages| ==> ps[i].pid == stages[i].pid
    requires forall i :: 0 <= i < |stages| ==> stages[i].pid in born && born[stages[i].pid] == |was|
    ensures AllEnded(ps, was + more, born) <==> forall i :: 0 <= i < |stages| ==> Ended(more, stages[i].pid)
  {
    hide Ended;
    assert (was + more)[|was|..] == more;
    assert forall i :: 0 <= i < |stages| ==> Since(was + more, born, ps[i].pid) == more;
  }

  /** What is printed about a job is what was reported about its processes. */
  predicate Reported(r: Report, heard: seq<Event>, born: map<int, nat>) {
    var ps := r.job.proc;
    && (r.said == Runs ==> r.job.state == Running)
    && (r.said == Suspended ==> r.job.state == Stopped)
    && (r.said.ExitedWith? || r.said.KilledBy? <==> AllEnded(ps, heard, born))
    && (r.said.ExitedWith? || r.said.KilledBy? ==>
          ps != [] && var pid := ps[|ps| - 1].pid;
          var end := if r.said.ExitedWith? then Exit(pid, r.said.status) else Kill(pid, r.said.signal);
          end in Since(heard, born, pid))
  }

  lemma SaidTold(j: nat, b: Job, heard: seq<Event>, reaped: set<int>, born: map<int, nat>)
    requires JobOk(b) && b.pgid != 0 && Told(b.proc, heard, born) && Finals(heard, reaped)
    ensures Reported(Report(j, b, Said(b)), heard, born)
  {
    hide Tells, Ended, Finals, AllEnded;
    JobEnded(b, heard, reaped, born);
    if b.state == Finished {
      NonemptyEnded(b.proc, heard, born);
      var p := b.proc[|b.proc| - 1];
      EndTold(p, heard, reaped, born[p.pid]);
    }
  }

  lemma NonemptyEnded(ps: seq<Proc>, heard: seq<Event>, born: map<int, nat>)
    ensures AllEnded(ps, heard, born) ==> ps != []
  {
  }

  /** A job's processes keep their numbers, whatever is reported. */
  predicate SamePids(ps: seq<Proc>, qs: seq<Proc>) {
    |ps| == |qs| && forall k :: 0 <= k < |ps| ==> ps[k].pid == qs[k].pid
  }

  lemma {:induction false} HeardPids(jobs: seq<Job>, events: seq<Event>, i: nat)
    requires i < |jobs|
    ensures SamePids(jobs[i].proc, Heard(jobs, events)[i].proc)
  {
    if events != [] {
      HeardPids(jobs, events[..|events| - 1], i);
    }
  }

  lemma {:induction false} HeardAllPids(jobs: seq<Job>, batches: seq<seq<Event>>, i: nat)
    requires i < |jobs|
    ensures SamePids(jobs[i].proc, HeardAll(jobs, batches)[i].proc)
  {
    if batches != [] {
      HeardAllPids(jobs, batches[..|batches| - 1], i);
      HeardPids(HeardAll(jobs, batches[..|batches| - 1]), batches[|batches| - 1], i);
    }
  }
}
