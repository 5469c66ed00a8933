/**
 * The crash-recovery sweep a server runs once at start-up: it lists the stored simulation
 * records, and for every record that says its run is still going it adds the run's tick
 * job to the queue again, under the job id `tick_<projectId>` so that a job that is still
 * pending is not doubled. A record that cannot be read is skipped and the sweep goes on.
 *
 * What the key listing returns is the parameter `keys` (one project id per stored
 * `simulation:<id>` key, in whatever order the store lists them); `failing` is the set of
 * keys whose read, parse or enqueue throws, which the sweep catches and logs. The sweep
 * is switched off entirely in production.
 */
module Recovery {
  import opened Wrappers
  import opened SimulationState
  import opened SimulationEngine

  /** The delay of a resumed tick job: the job is added without a delay option. */
  const RESUME_DELAY_MS: nat := 0

  /** What reading one listed key yields: the parsed record, or nothing when the step throws. */
  function ReadKey(records: map<ProjectId, Record>, failing: set<ProjectId>, k: ProjectId): Option<Record>
  {
    if k in records && k !in failing then Some(records[k]) else None
  }

  /** One step of the sweep: a running record has its tick job added, anything else is passed over. */
  function Resume(jobs: map<JobId, Job>, read: Option<Record>): map<JobId, Job>
  {
    match read
    case Some(r) => if r.isRunning then Enqueue(jobs, JobIdOf(r.projectId), Job(r.projectId, RESUME_DELAY_MS)) else jobs
    case None => jobs
  }

  /** The pending jobs after the sweep has visited `keys` in order. */
  function Sweep(jobs: map<JobId, Job>, records: map<ProjectId, Record>, keys: seq<ProjectId>, failing: set<ProjectId>): (r: map<JobId, Job>)
    ensures |r.Keys| <= |jobs.Keys| + |keys|
    decreases |keys|
  {
    if keys == [] then jobs
    else Sweep(Resume(jobs, ReadKey(records, failing, keys[0])), records, keys[1..], failing)
  }

  /** The key resumes a run: it reads without failing and its record is running. */
  predicate Resumable(records: map<ProjectId, Record>, failing: set<ProjectId>, k: ProjectId)
  {
    k in records && k !in failing && records[k].isRunning
  }

  /** The store after start-up: the sweep when not in production, nothing otherwise. */
  function RecoverySpec(s: Store, keys: seq<ProjectId>, failing: set<ProjectId>, production: bool): (r: Store)
    ensures r.records == s.records && r.locks == s.locks && r.history == s.history
  {
    if production then s else s.(jobs := Sweep(s.jobs, s.records, keys, failing))
  }

  // ---------------------------------------------------------------------------------
  // What the sweep adds
  // ---------------------------------------------------------------------------------

  /**
   * The sweep never drops or alters a pending job, and every job it adds is the
   * zero-delay tick job of a listed, readable, running record, stored under that
   * record's tick job id.
   */
  lemma {:induction false} SweepAddsOnlyRunning(jobs: map<JobId, Job>, records: map<ProjectId, Record>, keys: seq<ProjectId>, failing: set<ProjectId>)
    ensures jobs.Keys <= Sweep(jobs, records, keys, failing).Keys
    ensures forall id :: id in jobs ==> Sweep(jobs, records, keys, failing)[id] == jobs[id]
    ensures forall id :: id in Sweep(jobs, records, keys, failing) && id !in jobs ==>
      exists k :: k in keys && Resumable(records, failing, k)
        && id == JobIdOf(records[k].projectId)
        && Sweep(jobs, records, keys, failing)[id] == Job(records[k].projectId, RESUME_DELAY_MS)
    decreases |keys|
  {
    if keys != [] {
      var k := keys[0];
      var next := Resume(jobs, ReadKey(records, failing, k));
      var out := Sweep(jobs, records, keys, failing);
      assert out == Sweep(next, records, keys[1..], failing);
      SweepAddsOnlyRunning(next, records, keys[1..], failing);
      forall id | id in out && id !in jobs
        ensures exists k' :: (k' in keys && Resumable(records, failing, k')
                                && id == JobIdOf(records[k'].projectId)
                                && out[id] == Job(records[k'].projectId, RESUME_DELAY_MS))
      {
        if id in next {
          assert Resumable(records, failing, k) && id == JobIdOf(records[k].projectId);
          assert out[id] == next[id] == Job(records[k].projectId, RESUME_DELAY_MS);
        } else {
          var k' :| k' in keys[1..] && Resumable(records, failing, k')
            && id == JobIdOf(records[k'].projectId)
            && out[id] == Job(records[k'].projectId, RESUME_DELAY_MS);
          assert k' in keys;
        }
      }
    }
  }

  /**
   * Every listed key that reads without failing and holds a running record has its tick
   * job pending after the sweep, whatever failed on the other keys.
   */
  lemma {:induction false} SweepResumes(jobs: map<JobId, Job>, records: map<ProjectId, Record>, keys: seq<ProjectId>, failing: set<ProjectId>, k: ProjectId)
    requires k in keys && Resumable(records, failing, k)
    ensures JobIdOf(records[k].projectId) in Sweep(jobs, records, keys, failing)
    decreases |keys|
  {
    var next := Resume(jobs, ReadKey(records, failing, keys[0]));
    SweepAddsOnlyRunning(next, records, keys[1..], failing);
    if keys[0] != k {
      assert k in keys[1..];
      SweepResumes(next, records, keys[1..], failing, k);
    }
  }

  /** A sweep whose every resumable key already has its job pending changes nothing. */
  lemma {:induction false} SweepOverPendingIsIdentity(jobs: map<JobId, Job>, records: map<ProjectId, Record>, keys: seq<ProjectId>, failing: set<ProjectId>)
    requires forall k :: k in keys && Resumable(records, failing, k) ==> JobIdOf(records[k].projectId) in jobs
    ensures Sweep(jobs, records, keys, failing) == jobs
    decreases |keys|
  {
    if keys != [] {
      assert Resume(jobs, ReadKey(records, failing, keys[0])) == jobs;
      assert forall k :: k in keys[1..] ==> k in keys;
      SweepOverPendingIsIdentity(jobs, records, keys[1..], failing);
    }
  }

  /** Sweeping a second time over the same store adds no job: the sweep is idempotent. */
  lemma SweepIdempotent(jobs: map<JobId, Job>, records: map<ProjectId, Record>, keys: seq<ProjectId>, failing: set<ProjectId>)
    ensures var once := Sweep(jobs, records, keys, failing);
      Sweep(once, records, keys, failing) == once
  {
    var once := Sweep(jobs, records, keys, failing);
    forall k | k in keys && Resumable(records, failing, k)
      ensures JobIdOf(records[k].projectId) in once
    {
      SweepResumes(jobs, records, keys, failing, k);
    }
    SweepOverPendingIsIdentity(once, records, keys, failing);
  }

  // ---------------------------------------------------------------------------------
  // The sweep in the store
  // ---------------------------------------------------------------------------------

  /**
   * Recovery touches only the queue: records, locks and history stay as they were (in
   * particular no run lock is taken), no pending job is dropped, and in production nothing
   * changes at all. Otherwise every listed key that reads without failing and holds a
   * running record has its tick job pending afterwards.
   */
  lemma RecoveryTouchesOnlyJobs(s: Store, keys: seq<ProjectId>, failing: set<ProjectId>, production: bool)
    ensures var s' := RecoverySpec(s, keys, failing, production);
      && s'.records == s.records && s'.locks == s.locks && s'.history == s.history
      && s.jobs.Keys <= s'.jobs.Keys
      && (production ==> s' == s)
      && (!production ==> forall k :: k in keys && Resumable(s.records, failing, k) ==> JobIdOf(s.records[k].projectId) in s'.jobs)
  {
    if !production {
      SweepAddsOnlyRunning(s.jobs, s.records, keys, failing);
      forall k | k in keys && Resumable(s.records, failing, k)
        ensures JobIdOf(s.records[k].projectId) in Sweep(s.jobs, s.records, keys, failing)
      {
        SweepResumes(s.jobs, s.records, keys, failing, k);
      }
    }
  }

  /** Recovery keeps every record under its own project and every job under its own id. */
  lemma RecoveryKeepsStoreOk(s: Store, keys: seq<ProjectId>, failing: set<ProjectId>, production: bool)
    requires StoreOk(s)
    ensures StoreOk(RecoverySpec(s, keys, failing, production))
  {
    if !production {
      var out := Sweep(s.jobs, s.records, keys, failing);
      SweepAddsOnlyRunning(s.jobs, s.records, keys, failing);
      forall id | id in out
        ensures id == JobIdOf(out[id].projectId)
      {
        if id !in s.jobs {
          var k :| k in keys && Resumable(s.records, failing, k)
            && id == JobIdOf(s.records[k].projectId)
            && out[id] == Job(s.records[k].projectId, RESUME_DELAY_MS);
        }
      }
    }
  }

  /**
   * A resumed job composes with the tick's lock check: when a project's run lock has
   * expired, the tick that recovery queued for it ends as lock-lost and leaves the
   * recovered store exactly as it was, since the sweep itself never takes a lock.
   */
  lemma ResumedTickWithoutLockIsInert(s: Store, keys: seq<ProjectId>, failing: set<ProjectId>, production: bool,
                                       p: ProjectId, races: seq<Interference>, historyOk: bool)
    requires p !in s.locks
    ensures var s' := RecoverySpec(s, keys, failing, production);
      TickSpec(s', p, races, historyOk) == (s', LockLost)
  {
    var s' := RecoverySpec(s, keys, failing, production);
    assert s'.locks == s.locks;
    TickNeedsLock(s', p, races, historyOk);
  }

  // ---------------------------------------------------------------------------------
  // The loop
  // ---------------------------------------------------------------------------------

  /** The `for` loop over the listed keys, each step inside its own try/catch. */
  method SweepKeys(jobs: map<JobId, Job>, records: map<ProjectId, Record>, keys: seq<ProjectId>, failing: set<ProjectId>)
    returns (out: map<JobId, Job>)
    ensures out == Sweep(jobs, records, keys, failing)
  {
    out := jobs;
    for i := 0 to |keys|
      invariant Sweep(out, records, keys[i..], failing) == Sweep(jobs, records, keys, failing)
    {
      assert keys[i..][1..] == keys[i + 1..];
      var k := keys[i];
      if k in records && k !in failing {
        var sim := records[k];
        if sim.isRunning {
          var id := JobIdOf(sim.projectId);
          if id !in out {
            out := out[id := Job(sim.projectId, RESUME_DELAY_MS)];
          }
        }
      }
    }
    assert keys[|keys|..] == [];
  }

  /** Start-up recovery over the shared store; only the queue is written. */
  method RecoverSimulations(store: SimulationStore, keys: seq<ProjectId>, failing: set<ProjectId>, production: bool)
    modifies store`jobs
    ensures store.State() == RecoverySpec(old(store.State()), keys, failing, production)
    ensures old(store.Valid()) ==> store.Valid()
  {
    ghost var before := store.State();
    if !production {
      store.jobs := SweepKeys(store.jobs, store.records, keys, failing);
    }
    if StoreOk(before) {
      RecoveryKeepsStoreOk(before, keys, failing, production);
    }
  }
}
