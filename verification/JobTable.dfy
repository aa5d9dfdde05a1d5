/** The job table of `shell/jobs.c` and the operations of the shell on it.  Every operation is atomic; changes of
    the children's status arrive in batches, one for each time the signal handler gets to run. */
module JobTable {
  import opened JobHistory
  import opened Jobs
  import opened Lexer
  import opened Sequences

  class Table {
    var jobs: seq<Job>
    /** What the kernel is still going to report. */
    var signals: seq<seq<Event>>
    ghost var home: map<int, Place>
    ghost var reaped: set<int>
    ghost var buried: seq<Job>
    /** Everything that was reported, and how much of it was when a process was started. */
    ghost var heard: seq<Event>
    ghost var born: map<int, nat>

    ghost predicate Consistent()
      reads this
    {
      Inv(jobs, home, reaped, buried) && TableTold(jobs, heard, born) && Finals(heard, reaped)
    }

    ghost predicate Valid()
      reads this
    {
      Consistent() && LegalAll(signals, reaped)
    }

    /** `initjobs`. */
    constructor (signals: seq<seq<Event>>)
      requires LegalAll(signals, {})
      ensures Valid() && jobs == [FREE] && home == map[] && buried == [] && this.signals == signals
      ensures heard == [] && born == map[]
    {
      jobs := [FREE];
      this.signals := signals;
      home, reaped, buried, heard, born := map[], {}, [], [], map[];
    }

    /** The search for the process among those of slot `i`, and what follows when it is found. */
    method NoticeIn(i: nat, e: Event)
      requires i < |jobs| && Distinct(jobs[i].proc)
      modifies this`jobs
      ensures jobs == old(jobs)[i := NotedJob(old(jobs)[i], e)]
    {
      var j := 0;
      while j < |jobs[i].proc|
        invariant j <= |jobs[i].proc| && jobs == old(jobs)
        invariant forall k :: 0 <= k < j ==> jobs[i].proc[k].pid != e.pid
      {
        if e.pid == jobs[i].proc[j].pid {
          jobs := jobs[i := jobs[i].(proc := jobs[i].proc[j := Noted(jobs[i].proc[j], e)])];
          ghost var now, ps := jobs, jobs[i].proc;
          assert ps == NotedAll(old(jobs)[i].proc, e);
          var compareState := jobs[i].proc[j].state;
          var changeJobState := true;
          var k := 0;
          while k < |jobs[i].proc|
            invariant jobs == now && k <= |ps| && changeJobState == Share(ps[..k], compareState)
          {
            if compareState != jobs[i].proc[k].state {
              changeJobState := false;
            }
            ShareMore(ps, k, compareState);
            k := k + 1;
          }
          assert ps[..k] == ps;
          if changeJobState {
            jobs := jobs[i := jobs[i].(state := compareState)];
          }
          return;
        }
        j := j + 1;
      }
    }

    /** The handler's work for one status report: every slot is searched. */
    method Notice(e: Event)
      requires Consistent() && e.pid !in reaped
      modifies this`jobs, this`reaped, this`heard
      ensures jobs == NotedTable(old(jobs), e) && reaped == ReapedBy(old(reaped), e) && heard == old(heard) + [e]
      ensures Consistent()
    {
      hide NotedJob, Reaped, Member, SlotsOk, GravesOk, HomesOk, TableTold, Finals;
      var i := 0;
      while i < |jobs|
        invariant i <= |jobs| == |old(jobs)| && reaped == old(reaped) && heard == old(heard)
        invariant forall k :: 0 <= k < i ==> jobs[k] == NotedJob(old(jobs)[k], e)
        invariant forall k :: i <= k < |jobs| ==> jobs[k] == old(jobs)[k]
      {
        assert JobOk(jobs[i]);
        NoticeIn(i, e);
        i := i + 1;
      }
      NotedInv(old(jobs), home, reaped, buried, e);
      NotedTableTold(old(jobs), e, reaped, heard, born);
      FinalsMore(heard, reaped, e);
      reaped, heard := ReapedBy(reaped, e), heard + [e];
      assert jobs == NotedTable(old(jobs), e);
    }

    /** `sigchld_handler`: all the reports that are pending. */
    method Handler(events: seq<Event>)
      requires Consistent() && Legal(events, reaped)
      modifies this`jobs, this`reaped, this`heard
      ensures jobs == Heard(old(jobs), events) && reaped == AllReaped(old(reaped), events)
      ensures Consistent() && heard == old(heard) + events
    {
      hide Table.Consistent, NotedTable, ReapedBy;
      var n := 0;
      assert events[..0] == [] && events[0..] == events;
      while n < |events|
        invariant n <= |events| && jobs == Heard(old(jobs), events[..n])
        invariant Consistent() && heard == old(heard) + events[..n] && Legal(events[n..], reaped)
        invariant AllReaped(reaped, events[n..]) == AllReaped(old(reaped), events)
      {
        assert events[n..][1..] == events[n + 1..];
        assert events[..n + 1][..n] == events[..n];
        Notice(events[n]);
        n := n + 1;
      }
      assert events[..n] == events && events[n..] == [];
    }

    /** The handler runs, if the kernel has anything more to report. */
    method Interrupt()
      requires Valid()
      modifies this`jobs, this`reaped, this`heard, this`signals
      ensures Valid()
      ensures if old(signals) == [] then jobs == old(jobs) && signals == [] && heard == old(heard)
              else
                && jobs == Heard(old(jobs), old(signals)[0]) && signals == old(signals)[1..]
                && heard == old(heard) + old(signals)[0]
    {
      if signals != [] {
        Handler(signals[0]);
        signals := signals[1..];
      }
    }

    /** `allocjob`. */
    method AllocJob() returns (j: nat)
      requires Valid()
      modifies this`jobs
      ensures Valid() && j == FirstFree(old(jobs)) && jobs == Room(old(jobs), j) && jobs[j] == FREE
    {
      hide Member, GravesOk, SlotsOk, HomesOk, LegalAll, Reaped;
      j := BG;
      while j < |jobs|
        invariant BG <= j <= |jobs| && FirstFree(jobs) == FirstFreeFrom(jobs, j)
      {
        if jobs[j].pgid == 0 {
          assert JobOk(jobs[j]);
          return;
        }
        j := j + 1;
      }
      RoomInv(jobs, home, reaped, buried, j);
      jobs := jobs + [FREE];
    }

    /** `addjob`.  A foreground job needs the foreground slot to be free. */
    method AddJob(pgid: int, bg: bool) returns (j: nat)
      requires Valid() && pgid > 0 && (!bg ==> jobs[FG].pgid == 0)
      modifies this`jobs
      ensures Valid() && j == if bg then FirstFree(old(jobs)) else FG
      ensures jobs == Room(old(jobs), j)[j := Launched(pgid, [])] && Starting(jobs[j])
    {
      hide Member, GravesOk, SlotsOk, HomesOk, LegalAll, Reaped, JobsOk;
      j := FG;
      if bg {
        j := AllocJob();
      }
      OpenedInv(jobs, home, reaped, buried, j, Launched(pgid, []));
      jobs := jobs[j := Job(pgid, [], Running, None)];
    }

    /** `addproc`.  The job is being set up, and the kernel does not give out the number of a process that the
        table knows. */
    method AddProc(j: nat, pid: int, argv: seq<string>)
      requires Valid() && j < |jobs| && Starting(jobs[j]) && pid !in home && argv != []
      modifies this`jobs, this`home, this`born
      ensures Valid() && Kept(old(home), home, {pid}) && born == old(born)[pid := |heard|]
      ensures jobs == old(jobs)[j := WithProc(old(jobs)[j], pid, argv)] && Starting(jobs[j])
    {
      hide Member, GravesOk, SlotsOk, HomesOk, LegalAll;
      assert JobOk(jobs[j]) && Reaped(jobs[j], reaped) && (Member(jobs[j].proc, pid) <==> At(home, pid, Slot(j))) by {
        SlotAt(jobs, home, reaped, buried, j, pid);
      }
      WithProcOk(jobs[j], pid, argv, reaped);
      WithProcInv(jobs, home, reaped, buried, j, pid, argv);
      forall i | 0 <= i < |jobs|
        ensures !Member(jobs[i].proc, pid)
      {
        SlotAt(jobs, home, reaped, buried, i, pid);
      }
      BornTold(jobs, j, WithProc(jobs[j], pid, argv), pid, heard, born);
      home, born := home[pid := Slot(j)], born[pid := |heard|];
      var command := MkCommand(jobs[j].command, argv);
      var job := jobs[j].(proc := jobs[j].proc + [Proc(pid, Running, Unset)]);
      jobs := jobs[j := job.(command := Some(command))];
    }

    /** `deljob`.  Its assertion holds wherever it is called. */
    method DelJob(j: nat)
      requires Valid() && j < |jobs| && jobs[j].pgid != 0 && jobs[j].state == Finished
      modifies this`jobs, this`home, this`buried
      ensures Valid() && Kept(old(home), home, {})
      ensures jobs == old(jobs)[j := FREE] && buried == old(buried) + [old(jobs)[j]]
    {
      hide LegalAll;
      assert jobs[j].state == Finished;
      BuriedInv(jobs, home, reaped, buried, j);
      home := Rehomed(home, Slot(j), Buried(|buried|));
      buried := buried + [jobs[j]];
      jobs := jobs[j := jobs[j].(pgid := 0, command := None, proc := [])];
    }

    /** `movejob`.  So does its. */
    method MoveJob(from: nat, to: nat)
      requires Valid() && from < |jobs| && to < |jobs| && from != to && jobs[to].pgid == 0
      modifies this`jobs, this`home
      ensures Valid() && Kept(old(home), home, {}) && jobs == Moved(old(jobs), from, to)
    {
      hide LegalAll;
      assert jobs[to].pgid == 0;
      MovedInv(jobs, home, reaped, buried, from, to);
      home := Rehomed(home, Slot(from), Slot(to));
      jobs := jobs[to := jobs[from]];
      jobs := jobs[from := FREE];
    }

    /** `jobstate`: a finished job is deleted; its status is that of its last process, which is known. */
    method JobState(j: nat) returns (state: State, status: Status)
      requires Valid() && j < |jobs| && jobs[j].pgid != 0
      modifies this`jobs, this`home, this`buried
      ensures Valid() && Kept(old(home), home, {}) && state == old(jobs)[j].state
      ensures if state == Finished
        then jobs == old(jobs)[j := FREE] && buried == old(buried) + [old(jobs)[j]] &&
             old(jobs)[j].proc != [] && status == LastStatus(old(jobs)[j]) && status != Unset
        else jobs == old(jobs) && buried == old(buried)
    {
      hide LegalAll, Member, SlotsOk, GravesOk, HomesOk;
      state, status := jobs[j].state, Unset;
      if state == Finished {
        FinishedKnown(jobs, reaped, j);
        status := jobs[j].proc[|jobs[j].proc| - 1].exitcode;
        DelJob(j);
      }
    }

    /** `monitorjob`: waits while the foreground job runs, and leaves the foreground slot free. */
    method MonitorJob() returns (done: bool, exitcode: int, ghost n: nat)
      requires Valid() && jobs[FG].pgid != 0
      modifies this
      ensures Valid() && Kept(old(home), home, {}) && (done ==> jobs[FG] == FREE)
      ensures Waited(old(jobs), old(signals), n, jobs, done) && signals == old(signals)[n..]
      ensures var b := HeardAll(old(jobs), old(signals)[..n])[FG];
        done ==> exitcode == JobCode(b) && buried == old(buried) + if b.state == Finished then [b] else []
      ensures heard == old(heard) + Concat(old(signals)[..n]) && born == old(born) && old(buried) <= buried
      ensures |buried| > |old(buried)| <==> done && AllEnded(old(jobs)[FG].proc, heard, born)
      ensures |buried| > |old(buried)| ==>
                var p := old(jobs)[FG].proc[|old(jobs)[FG].proc| - 1];
                var told := if p.exitcode == Unset then Concat(old(signals)[..n]) else Since(heard, born, p.pid);
                Exit(p.pid, exitcode) in told || Kill(p.pid, exitcode) in told
      ensures |buried| == |old(buried)| ==> exitcode == 0
    {
      hide Valid, HeardAll, Kept, Told, Finals, JobOk, Concat, AllEnded, Since, SamePids, Settled, JobCode, Code;
      ghost var start, batches, was := jobs, signals, heard;
      n, exitcode := 0, 0;
      Sound();
      Record(FG);
      Waiting(start, batches, 0);
      ConcatNone(batches);
      var state, status := JobState(FG);
      while state == Running
        invariant n <= |batches| && signals == batches[n..] && Valid() && Kept(old(home), home, {}) && |jobs| > 0
        invariant forall k {:trigger batches[..k]} :: 0 <= k < n ==> HeardAll(start, batches[..k])[FG].state == Running
        invariant ghost var now := HeardAll(start, batches[..n]);
          && now[FG].pgid != 0 && state == now[FG].state
          && (state == Finished ==> now[FG].proc != [] && status == LastStatus(now[FG]))
          && jobs == (if state == Finished then now[FG := FREE] else now)
          && buried == old(buried) + (if state == Finished then [now[FG]] else [])
          && JobOk(now[FG]) && Told(now[FG].proc, heard, born) && Finals(heard, reaped)
        invariant heard == was + Concat(batches[..n]) && born == old(born)
        decreases |signals|, state == Running
      {
        if signals == [] {
          assert batches[..n] == batches;
          Outcome(start, batches, n, was);
          return false, 0, n;
        }
        Interrupt();
        ConcatUpTo(batches, n);
        n := n + 1;
        Waiting(start, batches, n);
        Sound();
        Record(FG);
        ghost var before := home;
        state, status := JobState(FG);
        KeptStill(old(home), before, home, {});
      }
      Outcome(start, batches, n, was);
      ghost var before := home;
      exitcode := Conclude(state, status, HeardAll(start, batches[..n]));
      KeptStill(old(home), before, home, {});
      done := true;
    }

    /** The end of `monitorjob`: a stopped job goes to the background, the status of a finished one is looked at. */
    method Conclude(state: State, status: Status, ghost now: seq<Job>) returns (exitcode: int)
      requires Valid() && |now| > 0 && state == now[FG].state != Running
      requires jobs == if state == Finished then now[FG := FREE] else now
      requires state == Finished ==> now[FG].proc != [] && status == LastStatus(now[FG])
      modifies this`jobs, this`home
      ensures Valid() && Kept(old(home), home, {}) && jobs == Settled(now) && jobs[FG] == FREE
      ensures exitcode == JobCode(now[FG]) && (state != Finished ==> exitcode == 0)
    {
      hide Valid, Kept;
      KeptSelf(home);
      exitcode := 0;
      if state == Stopped {
        Sound();
        var j := AllocJob();
        MoveJob(FG, j);
      } else if state == Finished {
        exitcode := Code(status);
      }
    }

    lemma Record(j: nat)
      requires Valid() && j < |jobs|
      ensures JobOk(jobs[j]) && Told(jobs[j].proc, heard, born) && Finals(heard, reaped)
    {
    }

    /** What has become of the foreground job, in terms of the reports. */
    lemma Outcome(start: seq<Job>, batches: seq<seq<Event>>, n: nat, was: seq<Event>)
      requires start != [] && n <= |batches| && Told(start[FG].proc, was, born) && start[FG].pgid != 0
      requires heard == was + Concat(batches[..n]) && Finals(heard, reaped)
      requires var b := HeardAll(start, batches[..n])[FG]; b.pgid != 0 && JobOk(b) && Told(b.proc, heard, born)
      ensures var b := HeardAll(start, batches[..n])[FG];
        && (b.state == Finished <==> AllEnded(start[FG].proc, heard, born))
        && (b.state == Finished ==>
             && start[FG].proc != []
             && var p := start[FG].proc[|start[FG].proc| - 1];
             var told := if p.exitcode == Unset then Concat(batches[..n]) else Since(heard, born, p.pid);
             Exit(p.pid, JobCode(b)) in told || Kill(p.pid, JobCode(b)) in told)
    {
      hide HeardAll, Told, Finals, JobOk, Concat, AllEnded, Since, JobCode;
      HeardAllPids(start, batches[..n], FG);
      Nonempty(start[FG].proc);
      CodeCarried(start[FG].proc, HeardAll(start, batches[..n])[FG], was, Concat(batches[..n]), reaped, born);
    }

    lemma Nonempty(ps: seq<Proc>)
      ensures AllEnded(ps, heard, born) ==> ps != []
    {
    }

    lemma Sound()
      requires Valid()
      ensures |jobs| > 0
    {
    }

    /** What `do_job` and `do_pipeline` do with the table while `SIGCHLD` is blocked: a job is added with a
        process for each stage, and if it is in the foreground the shell waits for it. */
    method Launch(bg: bool, stages: seq<Stage>) returns (j: nat, done: bool, exitcode: int, ghost n: nat)
      requires Valid() && jobs[FG] == FREE && stages != [] && Fresh(stages, home.Keys)
      modifies this
      ensures Valid() && Kept(old(home), home, PidsOf(stages)) && (done ==> jobs[FG] == FREE)
      ensures j == if bg then FirstFree(old(jobs)) else FG
      ensures var start := Room(old(jobs), j)[j := Launched(stages[0].pid, stages)];
        if bg then done && jobs == start && signals == old(signals) && buried == old(buried)
        else Waited(start, old(signals), n, jobs, done) && signals == old(signals)[n..]
      ensures heard == old(heard) + (if bg then [] else Concat(old(signals)[..n])) && old(buried) <= buried
      ensures |buried| > |old(buried)| <==>
                !bg && done && forall i :: 0 <= i < |stages| ==> Ended(Concat(old(signals)[..n]), stages[i].pid)
      ensures |buried| > |old(buried)| ==>
                var pid, told := stages[|stages| - 1].pid, Concat(old(signals)[..n]);
                Exit(pid, exitcode) in told || Kill(pid, exitcode) in told
      ensures |buried| == |old(buried)| ==> exitcode == 0
    {
      hide Valid, HeardAll, Kept, Starting, WithProc, Settled, PidsOf, Fresh, Concat, Ended, AllEnded, Since;
      n, exitcode, done := 0, 0, true;
      Sound();
      FirstFresh(stages, home);
      j := AddJob(stages[0].pid, bg);
      ghost var room := Room(old(jobs), j);
      assert Launched(stages[0].pid, stages[..0]) == Launched(stages[0].pid, []);
      KeptSelf(home);
      var i := 0;
      while i < |stages|
        invariant i <= |stages| && j < |jobs| && Valid() && Kept(old(home), home, PidsOf(stages[..i]))
                  && Starting(jobs[j])
        invariant jobs == room[j := Launched(stages[0].pid, stages[..i])]
        invariant signals == old(signals) && buried == old(buried) && heard == old(heard)
        invariant forall k :: 0 <= k < i ==> stages[k].pid in born && born[stages[k].pid] == |heard|
      {
        ghost var before := home;
        NotYet(old(home), home, stages, i);
        AddProc(j, stages[i].pid, stages[i].argv);
        KeptKept(old(home), before, home, PidsOf(stages[..i]), {stages[i].pid});
        PidsSnoc(stages, i);
        assert stages[..i + 1][..i] == stages[..i];
        i := i + 1;
      }
      assert stages[..i] == stages;
      if !bg {
        ghost var before := home;
        LaunchedIs(stages[0].pid, stages);
        ghost var ps := jobs[FG].proc;
        done, exitcode, n := MonitorJob();
        KeptStill(old(home), before, home, PidsOf(stages));
        StartedEnded(ps, stages, old(heard), Concat(old(signals)[..n]), born);
      }
    }

    /** `resumejob`.  Without a number it takes the highest slot in use. */
    method ResumeJob(j: int, bg: bool) returns (found: bool, done: bool, ghost n: nat)
      requires Valid() && jobs[FG] == FREE
      modifies this
      ensures Valid() && Kept(old(home), home, {}) && (done ==> jobs[FG] == FREE)
      ensures var k := if j < 0 then Highest(old(jobs)) else j;
        && found == (k < |old(jobs)| && old(jobs)[k].state != Finished)
        && if found && !bg then Waited(Moved(old(jobs), k, FG), old(signals), n, jobs, done)
            && signals == old(signals)[n..]
           else done && jobs == old(jobs) && signals == old(signals)
    {
      hide Valid, HeardAll, Kept, Settled;
      Sound();
      KeptSelf(home);
      n, done := 0, true;
      var k := j;
      if k < 0 {
        k := |jobs| - 1;
        while k > 0 && jobs[k].state == Finished
          invariant 0 <= k < |jobs| && Highest(jobs) == HighestBelow(jobs, k)
        {
          k := k - 1;
        }
      }
      if k >= |jobs| || jobs[k].state == Finished {
        return false, true, 0;
      }
      found := true;
      if !bg {
        UsedSlot(k);
        MoveJob(k, FG);
        ghost var before := home;
        var exitcode;
        done, exitcode, n := MonitorJob();
        KeptStill(old(home), before, home, {});
      }
    }

    lemma UsedSlot(k: nat)
      requires Valid() && k < |jobs| && jobs[k].state != Finished
      ensures jobs[k].pgid != 0
    {
      assert JobOk(jobs[k]);
    }

    /** One slot is looked at: reported if it was asked for, and then deleted if it has finished. */
    method Look(j: nat, which: Option<State>) returns (seen: seq<Report>)
      requires Valid() && j < |jobs|
      modifies this`jobs, this`home, this`buried
      ensures Valid() && Kept(old(home), home, {}) && jobs == old(jobs)[j := Swept(old(jobs)[j], which)]
      ensures seen == if Reportable(old(jobs)[j], which) then [Report(j, old(jobs)[j], Said(old(jobs)[j]))] else []
      ensures |seen| == if old(jobs)[j].pgid != 0 && (which == None || which == Some(old(jobs)[j].state)) then 1 else 0
      ensures jobs == if |seen| == 1 && old(jobs)[j].state == Finished then old(jobs)[j := Job(0, [], Finished, None)]
                      else old(jobs)
      ensures buried == old(buried) + FinishedOf(seen) && forall r :: r in seen ==> Reported(r, heard, born)
    {
      hide Valid, Kept, Reported, JobOk, Told, Finals;
      KeptSelf(home);
      seen := [];
      if jobs[j].pgid == 0 {
        return;
      }
      var state := jobs[j].state;
      if which.Some? && state != which.value {
        return;
      }
      Record(j);
      SaidTold(j, jobs[j], heard, reaped, born);
      var said;
      if state == Running {
        said := Runs;
      } else if state == Stopped {
        said := Suspended;
      } else {
        FinishedStatus(j);
        var status := jobs[j].proc[|jobs[j].proc| - 1].exitcode;
        said := if status.Killed? then KilledBy(status.signal) else ExitedWith(Code(status));
      }
      seen := [Report(j, jobs[j], said)];
      assert seen[..0] == [];
      if state == Finished {
        DelJob(j);
      }
    }

    lemma FinishedStatus(j: nat)
      requires Valid() && j < |jobs| && jobs[j].pgid != 0 && jobs[j].state == Finished
      ensures jobs[j].proc != []
    {
      FinishedKnown(jobs, reaped, j);
    }

    /** `watchjobs`: called with `SIGCHLD` unblocked, so the handler may run before each slot is looked at.  What
        is reported as finished is what is deleted, and so it is reported once. */
    method WatchJobs(which: Option<State>) returns (reports: seq<Report>)
      requires Valid()
      modifies this
      ensures Valid() && Kept(old(home), home, {}) && (old(jobs)[FG] == FREE ==> jobs[FG] == FREE)
      ensures |jobs| == |old(jobs)| && (jobs, reports) == Watched(old(jobs), which, old(signals), |jobs|)
      ensures buried == old(buried) + FinishedOf(reports)
      ensures forall r :: r in reports ==> exists h :: h <= heard && Reported(r, h, born)
    {
      hide Valid, Heard, Kept, Watched, Swept, Reportable, FinishedOf, Reported, Said;
      Sound();
      KeptSelf(home);
      reports := [];
      WatchedNone(jobs, which, signals);
      var j := BG;
      while j < |jobs|
        invariant 1 <= j <= |jobs| == |old(jobs)| && Valid() && Kept(old(home), home, {})
        invariant (jobs, reports) == Watched(old(jobs), which, old(signals), j)
        invariant signals == if j - 1 <= |old(signals)| then old(signals)[j - 1..] else []
        invariant buried == old(buried) + FinishedOf(reports) && born == old(born)
        invariant forall r :: r in reports ==> exists h :: h <= heard && Reported(r, h, born)
        invariant old(jobs)[FG] == FREE ==> jobs[FG] == FREE
      {
        ghost var was := jobs;
        Interrupt();
        HeardFree(was, FG);
        ghost var before, seen := home, reports;
        var more := Look(j, which);
        KeptStill(old(home), before, home, {});
        reports := reports + more;
        FinishedConcat(seen, more);
        WatchedStep(old(jobs), which, old(signals), j);
        j := j + 1;
      }
    }

    /** The handler runs a number of times while the shell does nothing. */
    method Pause(count: nat)
      requires Valid()
      modifies this`jobs, this`reaped, this`heard, this`signals
      ensures Valid() && |jobs| == |old(jobs)| && (old(jobs)[FG] == FREE ==> jobs[FG] == FREE)
      ensures var n := if count < |old(signals)| then count else |old(signals)|;
              signals == old(signals)[n..] && jobs == HeardAll(old(jobs), old(signals)[..n])
    {
      hide Valid, Heard, HeardAll;
      Sound();
      ghost var start, batches := jobs, signals;
      var k := 0;
      Waiting(start, batches, 0);
      while k < count
        invariant Valid() && |jobs| == |old(jobs)| > 0 && (old(jobs)[FG] == FREE ==> jobs[FG] == FREE) && k <= count
        invariant ghost var n := if k < |batches| then k else |batches|;
                  signals == batches[n..] && jobs == HeardAll(start, batches[..n])
      {
        HeardFree(jobs, FG);
        if k < |batches| {
          Waiting(start, batches, k + 1);
        }
        Interrupt();
        k := k + 1;
      }
    }

    /** A run of the shell: whatever commands are given and whenever children change their status, also while the shell
        is at its prompt, the invariant holds and the foreground slot is free whenever a new command is read. */
    method Session(requests: seq<Request>, pauses: seq<nat>)
      returns (waiting: bool, ghost done: nat, ghost known: set<int>)
      requires Valid() && jobs[FG] == FREE && FreshAll(requests, home.Keys) && |pauses| == |requests|
      modifies this
      ensures Valid() && Kept(old(home), home, known)
      ensures done <= |requests| && known == AllAdded(requests[..done])
      ensures if waiting then done > 0 && !requests[done - 1].Watch? else done == |requests| && jobs[FG] == FREE
    {
      hide Valid, Waited, Kept, Watched, FinishedOf, Launched, Settled, Room, Moved, Highest, HeardAll, PidsOf, Fresh;
      hide AllAdded;
      KeptSelf(home);
      NothingAdded(requests);
      known := {};
      done := 0;
      var i := 0;
      Sound();
      assert requests[0..] == requests;
      while i < |requests|
        invariant i == done <= |requests| && Valid() && |jobs| > 0 && jobs[FG] == FREE
        invariant Kept(old(home), home, known) && FreshAll(requests[i..], home.Keys) && known == AllAdded(requests[..i])
      {
        Pause(pauses[i]);
        ghost var before := home;
        var r, over := requests[i], true;
        assert requests[i..][1..] == requests[i + 1..];
        match r {
          case Run(bg, stages) =>
            var j, exitcode;
            ghost var n;
            j, over, exitcode, n := Launch(bg, stages);
          case Resume(j, bg) =>
            var found;
            ghost var n;
            found, over, n := ResumeJob(j, bg);
          case Watch(which) =>
            var reports := WatchJobs(which);
        }
        KeptKept(old(home), before, home, known, Added(r));
        KeptKeys(before, home, Added(r));
        AddedMore(requests, i);
        known := known + Added(r);
        Sound();
        i := i + 1;
        done := i;
        if !over {
          return true, done, known;
        }
      }
      waiting := false;
      assert requests[..i] == requests;
    }
  }
}
