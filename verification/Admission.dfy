/** The two-level admission protocol of the server (crates/diar-server/src/main.rs): the global
    semaphore, then the optional CPU semaphore, then the engine mutex.

    A state holds any number of requests. Each step is one atomic action between two await
    points of one request's handler, or of the blocking job it spawned. Which waiter gets a free
    permit, and when a client goes away, is left open. */
module Admission {
  import opened Wrappers
  import opened DeviceNames

  /** `cpu.None?` means no CPU sub-gate. `serialEngines` is the `coreml` build, which holds an
      engine's mutex for the whole job. */
  datatype Config = Config(global: nat, cpu: Option<nat>, serialEngines: bool)

  datatype Gate = Global | CpuOnly

  /** The handler: `WaitCpu` holds the global permit, `Admitted` holds every permit it needs. */
  datatype Handler = New | BadDevice | WaitGlobal | WaitCpu | Admitted | Replied | Dropped

  /** The blocking job, which outlives a dropped handler. */
  datatype Job = NoJob | Queued | InEngine | Over

  /** `device` is what the requested name resolves to, `None` if it does not. */
  datatype Request = Request(device: Option<Device>, handler: Handler, job: Job)

  datatype State = State(requests: seq<Request>, freeGlobal: nat, freeCpu: nat)

  predicate Gated(c: Config, r: Request) {
    r.device == Some(Cpu) && c.cpu.Some?
  }

  predicate Holds(c: Config, g: Gate, r: Request) {
    match g
    case Global => r.handler.WaitCpu? || r.handler.Admitted?
    case CpuOnly => r.handler.Admitted? && Gated(c, r)
  }

  function Permits(c: Config, g: Gate): nat {
    match g
    case Global => c.global
    case CpuOnly => if c.cpu.Some? then c.cpu.value else 0
  }

  function Free(s: State, g: Gate): nat {
    match g
    case Global => s.freeGlobal
    case CpuOnly => s.freeCpu
  }

  predicate Active(r: Request) {
    r.job.Queued? || r.job.InEngine?
  }

  predicate Finished(r: Request) {
    (r.handler.BadDevice? || r.handler.Replied? || r.handler.Dropped?) && !Active(r)
  }

  ghost predicate AllFinished(s: State) {
    forall r <- s.requests :: Finished(r)
  }

  /** Some job holds the mutex of `d`'s engine. */
  ghost predicate Locked(c: Config, s: State, d: Option<Device>) {
    c.serialEngines && exists j :: 0 <= j < |s.requests| && s.requests[j].job.InEngine? && s.requests[j].device == d
  }

  // ---------------------------------------------------------------- steps

  datatype Action = Resolve | AcquireGlobal | AcquireCpu | EnterEngine | FailEarly | LeaveEngine | Reply | Drop

  datatype Step = Step(i: nat, action: Action)

  ghost predicate Enabled(c: Config, s: State, t: Step) {
    && t.i < |s.requests|
    && var r := s.requests[t.i];
       match t.action
       case Resolve => r.handler.New?
       case AcquireGlobal => r.handler.WaitGlobal? && s.freeGlobal > 0
       case AcquireCpu => r.handler.WaitCpu? && s.freeCpu > 0
       case EnterEngine => r.job.Queued? && !Locked(c, s, r.device)
       case FailEarly => r.job.Queued?
       case LeaveEngine => r.job.InEngine?
       case Reply => r.handler.Admitted? && r.job.Over?
       case Drop => r.handler.New? || r.handler.WaitGlobal? || r.handler.WaitCpu? || r.handler.Admitted?
  }

  function After(c: Config, r: Request, action: Action): Request {
    match action
    case Resolve => r.(handler := if r.device.Some? then WaitGlobal else BadDevice)
    case AcquireGlobal => if Gated(c, r) then r.(handler := WaitCpu) else r.(handler := Admitted, job := Queued)
    case AcquireCpu => r.(handler := Admitted, job := Queued)
    case EnterEngine => r.(job := InEngine)
    case FailEarly => r.(job := Over)
    case LeaveEngine => r.(job := Over)
    case Reply => r.(handler := Replied)
    case Drop => r.(handler := Dropped)
  }

  /** Acquiring takes a permit; replying, or dropping the handler, gives back what it holds. */
  ghost function Next(c: Config, s: State, t: Step): State
    requires Enabled(c, s, t)
  {
    var r := s.requests[t.i];
    var s' := s.(requests := s.requests[t.i := After(c, r, t.action)]);
    match t.action
    case AcquireGlobal => s'.(freeGlobal := s.freeGlobal - 1)
    case AcquireCpu => s'.(freeCpu := s.freeCpu - 1)
    case Reply => Release(c, s', r)
    case Drop => Release(c, s', r)
    case _ => s'
  }

  function Release(c: Config, s: State, r: Request): State {
    s.(freeGlobal := s.freeGlobal + if Holds(c, Global, r) then 1 else 0,
       freeCpu := s.freeCpu + if Holds(c, CpuOnly, r) then 1 else 0)
  }

  /** Any finite number of requests, by the devices their names resolve to. */
  function Start(c: Config, devices: seq<Option<Device>>): State {
    State(seq(|devices|, i requires 0 <= i < |devices| => Request(devices[i], New, NoJob)),
          Permits(c, Global), Permits(c, CpuOnly))
  }

  /** The state after a run, or `None` if some step of it was not enabled. */
  ghost function RunFrom(c: Config, s: State, steps: seq<Step>): Option<State> {
    if steps == [] then Some(s)
    else
      match RunFrom(c, s, steps[..|steps| - 1])
      case None => None
      case Some(m) =>
        if Enabled(c, m, steps[|steps| - 1]) then Some(Next(c, m, steps[|steps| - 1])) else None
  }

  // ---------------------------------------------------------------- counting

  function Held(c: Config, g: Gate, requests: seq<Request>): nat {
    if requests == [] then 0
    else Held(c, g, requests[..|requests| - 1]) + if Holds(c, g, requests[|requests| - 1]) then 1 else 0
  }

  lemma HeldUpdate(c: Config, g: Gate, requests: seq<Request>, i: nat, r: Request)
    requires i < |requests|
    ensures Held(c, g, requests[i := r]) ==
              Held(c, g, requests) - (if Holds(c, g, requests[i]) then 1 else 0) + (if Holds(c, g, r) then 1 else 0)
  {
    var k := |requests| - 1;
    if i < k {
      HeldUpdate(c, g, requests[..k], i, r);
      assert requests[i := r][..k] == requests[..k][i := r];
    } else {
      assert requests[i := r][..k] == requests[..k];
    }
  }

  lemma SomeHolder(c: Config, g: Gate, requests: seq<Request>) returns (k: nat)
    requires Held(c, g, requests) > 0
    ensures k < |requests| && Holds(c, g, requests[k])
  {
    k := |requests| - 1;
    if !Holds(c, g, requests[k]) {
      k := SomeHolder(c, g, requests[..k]);
    }
  }

  lemma NoHolderAtStart(c: Config, g: Gate, requests: seq<Request>)
    requires forall r <- requests :: r.handler.New?
    ensures Held(c, g, requests) == 0
  {
  }

  // ---------------------------------------------------------------- the invariant

  predicate Consistent(c: Config, r: Request) {
    && (r.handler.New? || r.handler.BadDevice? || r.handler.WaitGlobal? || r.handler.WaitCpu? ==> r.job.NoJob?)
    && (r.handler.BadDevice? ==> r.device.None?)
    && (r.handler.WaitGlobal? || r.handler.WaitCpu? || r.handler.Admitted? || r.handler.Replied? ==> r.device.Some?)
    && (r.handler.WaitCpu? ==> Gated(c, r))
    && (r.handler.Admitted? ==> !r.job.NoJob?)
    && (r.handler.Replied? ==> r.job.Over?)
    && (!r.job.NoJob? ==> r.device.Some?)
  }

  ghost predicate Inv(c: Config, s: State) {
    && (forall g: Gate :: Free(s, g) + Held(c, g, s.requests) == Permits(c, g))
    && (forall r <- s.requests :: Consistent(c, r))
    && (c.serialEngines ==>
          forall i, j :: 0 <= i < j < |s.requests| && s.requests[i].job.InEngine? && s.requests[j].job.InEngine?
                         ==> s.requests[i].device != s.requests[j].device)
  }

  lemma StartInv(c: Config, devices: seq<Option<Device>>)
    ensures Inv(c, Start(c, devices))
  {
    forall g: Gate ensures Held(c, g, Start(c, devices).requests) == 0 {
      NoHolderAtStart(c, g, Start(c, devices).requests);
    }
  }

  lemma StepConserves(c: Config, s: State, t: Step, g: Gate)
    requires Enabled(c, s, t) && Consistent(c, s.requests[t.i])
    requires Free(s, g) + Held(c, g, s.requests) == Permits(c, g)
    ensures Free(Next(c, s, t), g) + Held(c, g, Next(c, s, t).requests) == Permits(c, g)
  {
    HeldUpdate(c, g, s.requests, t.i, After(c, s.requests[t.i], t.action));
  }

  lemma StepExcludes(c: Config, s: State, t: Step, i: nat, j: nat)
    requires Inv(c, s) && Enabled(c, s, t) && c.serialEngines
    requires i < |s.requests| && j < |s.requests| && i != j
    requires Next(c, s, t).requests[i].job.InEngine? && Next(c, s, t).requests[j].job.InEngine?
    ensures Next(c, s, t).requests[i].device != Next(c, s, t).requests[j].device
  {
  }

  lemma StepKeepsInv(c: Config, s: State, t: Step)
    requires Inv(c, s) && Enabled(c, s, t)
    ensures Inv(c, Next(c, s, t))
  {
    assert s.requests[t.i] in s.requests;
    var s' := Next(c, s, t);
    forall g: Gate
      ensures Free(s', g) + Held(c, g, s'.requests) == Permits(c, g)
    {
      StepConserves(c, s, t, g);
    }
    assert Consistent(c, After(c, s.requests[t.i], t.action));
    if c.serialEngines {
      forall i, j | 0 <= i < j < |s'.requests| && s'.requests[i].job.InEngine? && s'.requests[j].job.InEngine?
        ensures s'.requests[i].device != s'.requests[j].device
      {
        StepExcludes(c, s, t, i, j);
      }
    }
  }

  lemma {:induction false} RunKeepsInv(c: Config, s: State, steps: seq<Step>)
    requires Inv(c, s) && RunFrom(c, s, steps).Some?
    ensures Inv(c, RunFrom(c, s, steps).value)
  {
    if steps != [] {
      RunKeepsInv(c, s, steps[..|steps| - 1]);
      StepKeepsInv(c, RunFrom(c, s, steps[..|steps| - 1]).value, steps[|steps| - 1]);
    }
  }

  ghost predicate Reachable(c: Config, s: State) {
    exists devices: seq<Option<Device>>, steps: seq<Step> :: RunFrom(c, Start(c, devices), steps) == Some(s)
  }

  lemma ReachableInv(c: Config, s: State)
    requires Reachable(c, s)
    ensures Inv(c, s)
  {
    var devices: seq<Option<Device>>, steps :| RunFrom(c, Start(c, devices), steps) == Some(s);
    StartInv(c, devices);
    RunKeepsInv(c, Start(c, devices), steps);
  }

  // ---------------------------------------------------------------- safety

  /** MAIN RESULT. In every reachable state permits are conserved at both gates, so neither is
      over-committed; a CPU-permit holder is a CPU request holding a global permit; a request
      whose device does not resolve holds nothing; and engine mutexes exclude. */
  lemma PermitsAreConserved(c: Config, s: State)
    requires Reachable(c, s)
    ensures forall g: Gate :: Free(s, g) + Held(c, g, s.requests) == Permits(c, g)
    ensures forall r <- s.requests :: Holds(c, CpuOnly, r) ==> Holds(c, Global, r) && r.device == Some(Cpu)
    ensures forall r <- s.requests :: r.device.None? ==> !Holds(c, Global, r) && !Holds(c, CpuOnly, r) && r.job.NoJob?
    ensures c.serialEngines ==>
              forall i, j :: 0 <= i < j < |s.requests| && s.requests[i].job.InEngine? && s.requests[j].job.InEngine?
                             ==> s.requests[i].device != s.requests[j].device
  {
    ReachableInv(c, s);
  }

  /** Jobs queued or running, and those among them whose handler has gone. */
  function ActiveJobs(requests: seq<Request>): nat {
    if requests == [] then 0
    else ActiveJobs(requests[..|requests| - 1]) + if Active(requests[|requests| - 1]) then 1 else 0
  }

  function Orphans(requests: seq<Request>): nat {
    if requests == [] then 0
    else
      var r := requests[|requests| - 1];
      Orphans(requests[..|requests| - 1]) + if Active(r) && r.handler.Dropped? then 1 else 0
  }

  lemma {:induction false} ActiveAreHeldOrOrphaned(c: Config, requests: seq<Request>)
    requires forall r <- requests :: Consistent(c, r)
    ensures ActiveJobs(requests) <= Held(c, Global, requests) + Orphans(requests)
  {
    if requests != [] {
      assert requests[|requests| - 1] in requests;
      ActiveAreHeldOrOrphaned(c, requests[..|requests| - 1]);
    }
  }

  lemma NoDropNoOrphan(requests: seq<Request>)
    requires forall r <- requests :: !r.handler.Dropped?
    ensures Orphans(requests) == 0
  {
    if requests != [] {
      assert requests[|requests| - 1] in requests;
    }
  }

  /** The global gate bounds the running jobs up to those whose client went away; without such
      clients it bounds them outright. */
  lemma JobsAreBounded(c: Config, s: State)
    requires Reachable(c, s)
    ensures ActiveJobs(s.requests) <= c.global + Orphans(s.requests)
    ensures (forall r <- s.requests :: !r.handler.Dropped?) ==> ActiveJobs(s.requests) <= c.global
  {
    ReachableInv(c, s);
    assert Free(s, Global) + Held(c, Global, s.requests) == Permits(c, Global);
    ActiveAreHeldOrOrphaned(c, s.requests);
    if forall r <- s.requests :: !r.handler.Dropped? {
      NoDropNoOrphan(s.requests);
    }
  }

  function CpuAdmitted(requests: seq<Request>): nat {
    if requests == [] then 0
    else
      var r := requests[|requests| - 1];
      CpuAdmitted(requests[..|requests| - 1]) + if r.device == Some(Cpu) && r.handler.Admitted? then 1 else 0
  }

  function ActiveCpuJobs(requests: seq<Request>): nat {
    if requests == [] then 0
    else
      var r := requests[|requests| - 1];
      ActiveCpuJobs(requests[..|requests| - 1]) + if r.device == Some(Cpu) && Active(r) then 1 else 0
  }

  function CpuOrphans(requests: seq<Request>): nat {
    if requests == [] then 0
    else
      var r := requests[|requests| - 1];
      CpuOrphans(requests[..|requests| - 1]) + if r.device == Some(Cpu) && Active(r) && r.handler.Dropped? then 1 else 0
  }

  lemma {:induction false} CpuAdmittedAreHolders(c: Config, requests: seq<Request>)
    requires c.cpu.Some?
    ensures CpuAdmitted(requests) == Held(c, CpuOnly, requests)
  {
    if requests != [] {
      CpuAdmittedAreHolders(c, requests[..|requests| - 1]);
    }
  }

  lemma {:induction false} ActiveCpuJobsAreAdmittedOrOrphaned(c: Config, requests: seq<Request>)
    requires forall r <- requests :: Consistent(c, r)
    ensures ActiveCpuJobs(requests) <= CpuAdmitted(requests) + CpuOrphans(requests)
  {
    if requests != [] {
      assert requests[|requests| - 1] in requests;
      ActiveCpuJobsAreAdmittedOrOrphaned(c, requests[..|requests| - 1]);
    }
  }

  /** MAIN RESULT. With a CPU gate, at most its count of CPU requests are admitted at a time, and
      only jobs whose client went away can run beyond that. */
  lemma CpuJobsAreBounded(c: Config, s: State)
    requires Reachable(c, s) && c.cpu.Some?
    ensures CpuAdmitted(s.requests) <= c.cpu.value
    ensures ActiveCpuJobs(s.requests) <= c.cpu.value + CpuOrphans(s.requests)
  {
    ReachableInv(c, s);
    assert Free(s, CpuOnly) + Held(c, CpuOnly, s.requests) == Permits(c, CpuOnly);
    CpuAdmittedAreHolders(c, s.requests);
    ActiveCpuJobsAreAdmittedOrOrphaned(c, s.requests);
  }

  /** A reply follows the job's end; only a name that does not resolve is refused. */
  lemma RepliesFollowJobs(c: Config, s: State)
    requires Reachable(c, s)
    ensures forall r <- s.requests :: r.handler.Replied? ==> r.device.Some? && r.job.Over?
    ensures forall r <- s.requests :: r.handler.BadDevice? ==> r.device.None? && r.job.NoJob?
  {
    ReachableInv(c, s);
  }

  /** A client may leave at any time before the answer; the permits it held come back, its job stays. */
  lemma ClientsMayLeave(c: Config, s: State, i: nat)
    requires i < |s.requests|
    requires !s.requests[i].handler.BadDevice? && !s.requests[i].handler.Replied? && !s.requests[i].handler.Dropped?
    ensures Enabled(c, s, Step(i, Drop))
    ensures var r, s' := s.requests[i], Next(c, s, Step(i, Drop));
            && s'.requests == s.requests[i := Request(r.device, Dropped, r.job)]
            && s'.freeGlobal == s.freeGlobal + (if r.handler.WaitCpu? || r.handler.Admitted? then 1 else 0)
            && s'.freeCpu == s.freeCpu + if r.handler.Admitted? && r.device == Some(Cpu) && c.cpu.Some? then 1 else 0
  {
  }

  /** A queued job may end in an error before it reaches its engine. */
  lemma JobsMayFail(c: Config, s: State, i: nat)
    requires i < |s.requests| && s.requests[i].job.Queued?
    ensures Enabled(c, s, Step(i, FailEarly))
    ensures Next(c, s, Step(i, FailEarly)) == s.(requests := s.requests[i := s.requests[i].(job := Over)])
  {
  }

  lemma RunAppend(c: Config, s: State, steps: seq<Step>, t: Step)
    requires RunFrom(c, s, steps).Some? && Enabled(c, RunFrom(c, s, steps).value, t)
    ensures RunFrom(c, s, steps + [t]) == Some(Next(c, RunFrom(c, s, steps).value, t))
  {
    assert (steps + [t])[..|steps|] == steps;
  }

  /** `n` GPU requests, the first `k` of them admitted and then dropped. */
  function Abandoned(c: Config, n: nat, k: nat): State {
    State(seq(n, i requires 0 <= i < n => if i < k then Request(Some(Cuda), Dropped, Queued) else Request(Some(Cuda), New, NoJob)),
          Permits(c, Global), Permits(c, CpuOnly))
  }

  lemma {:induction false} AbandonedJobs(requests: seq<Request>)
    requires forall r <- requests :: Active(r)
    ensures ActiveJobs(requests) == |requests|
  {
    if requests != [] {
      assert requests[|requests| - 1] in requests;
      AbandonedJobs(requests[..|requests| - 1]);
    }
  }

  lemma AbandonOne(c: Config, n: nat, k: nat, start: State, steps: seq<Step>) returns (steps': seq<Step>)
    requires c.global > 0 && k < n && RunFrom(c, start, steps) == Some(Abandoned(c, n, k))
    ensures RunFrom(c, start, steps') == Some(Abandoned(c, n, k + 1))
  {
    var s := Abandoned(c, n, k);
    steps', s := OneMore(c, start, steps, s, Step(k, Action.Resolve));
    steps', s := OneMore(c, start, steps', s, Step(k, AcquireGlobal));
    steps', s := OneMore(c, start, steps', s, Step(k, Drop));
    assert s.requests == Abandoned(c, n, k + 1).requests;
  }

  lemma {:induction false} AbandonMany(c: Config, n: nat, k: nat) returns (steps: seq<Step>)
    requires c.global > 0 && k <= n
    ensures RunFrom(c, Start(c, seq(n, i => Some(Cuda))), steps) == Some(Abandoned(c, n, k))
  {
    var start := Start(c, seq(n, i => Some(Cuda)));
    if k == 0 {
      steps := [];
      assert start.requests == Abandoned(c, n, 0).requests;
    } else {
      steps := AbandonMany(c, n, k - 1);
      steps := AbandonOne(c, n, k - 1, start, steps);
    }
  }

  /** The orphan term is needed: whatever the gates, clients that go away once admitted can leave
      any number of jobs behind. */
  lemma DroppedClientsExceedAnyBound(c: Config, n: nat) returns (s: State)
    requires c.global > 0
    ensures Reachable(c, s) && ActiveJobs(s.requests) == n
  {
    var steps := AbandonMany(c, n, n);
    s := Abandoned(c, n, n);
    AbandonedJobs(s.requests);
  }

  lemma OneMore(c: Config, start: State, steps: seq<Step>, s: State, t: Step) returns (steps': seq<Step>, s': State)
    requires RunFrom(c, start, steps) == Some(s) && Enabled(c, s, t)
    ensures steps' == steps + [t] && RunFrom(c, start, steps') == Some(s') && s' == Next(c, s, t)
  {
    RunAppend(c, start, steps, t);
    steps', s' := steps + [t], Next(c, s, t);
  }

  // ---------------------------------------------------------------- the gates admit no fewer than their counts

  /** `n` requests for one device, the first `k` of them admitted and the first `e` of these in the engine. */
  function Crowd(c: Config, d: Device, n: nat, k: nat, e: nat): State
    requires Fits(c, d, k)
  {
    State(seq(n, i requires 0 <= i < n =>
                Request(Some(d), if i < k then Admitted else New, if i < e then InEngine else if i < k then Queued else NoJob)),
          c.global - k, if d == Cpu && c.cpu.Some? then c.cpu.value - k else Permits(c, CpuOnly))
  }

  /** Both counts allow `n` requests for `d`; only CPU requests meet the CPU gate. */
  predicate Fits(c: Config, d: Device, n: nat) {
    n <= c.global && (d == Cpu && c.cpu.Some? ==> n <= c.cpu.value)
  }

  lemma SetAgain<T>(s: seq<T>, k: nat, x: T, y: T)
    requires k < |s|
    ensures s[k := x][k := y] == s[k := y]
  {
  }

  lemma CrowdGrows(c: Config, d: Device, n: nat, k: nat)
    requires k < n && Fits(c, d, k + 1)
    ensures var q := Crowd(c, d, n, k, 0).requests;
            q[k] == Request(Some(d), New, NoJob)
            && q[k := Request(Some(d), Admitted, Queued)] == Crowd(c, d, n, k + 1, 0).requests
  {
  }

  lemma AdmitOne(c: Config, d: Device, n: nat, k: nat, start: State, steps: seq<Step>) returns (steps': seq<Step>)
    requires k < n && Fits(c, d, k + 1) && RunFrom(c, start, steps) == Some(Crowd(c, d, n, k, 0))
    ensures RunFrom(c, start, steps') == Some(Crowd(c, d, n, k + 1, 0))
  {
    var s := Crowd(c, d, n, k, 0);
    var q, waiting, second := s.requests, Request(Some(d), WaitGlobal, NoJob), Request(Some(d), WaitCpu, NoJob);
    CrowdGrows(c, d, n, k);
    steps', s := OneMore(c, start, steps, s, Step(k, Action.Resolve));
    SetAgain(q, k, waiting, Request(Some(d), Admitted, Queued));
    SetAgain(q, k, waiting, second);
    steps', s := OneMore(c, start, steps', s, Step(k, AcquireGlobal));
    if d == Cpu && c.cpu.Some? {
      SetAgain(q, k, second, Request(Some(d), Admitted, Queued));
      steps', s := OneMore(c, start, steps', s, Step(k, AcquireCpu));
    }
  }

  lemma {:induction false} AdmitMany(c: Config, d: Device, n: nat, k: nat) returns (steps: seq<Step>)
    requires k <= n && Fits(c, d, k)
    ensures RunFrom(c, Start(c, seq(n, i => Some(d))), steps) == Some(Crowd(c, d, n, k, 0))
  {
    var start := Start(c, seq(n, i => Some(d)));
    if k == 0 {
      steps := [];
      assert start.requests == Crowd(c, d, n, 0, 0).requests;
    } else {
      steps := AdmitMany(c, d, n, k - 1);
      steps := AdmitOne(c, d, n, k - 1, start, steps);
    }
  }

  lemma {:induction false} EnterMany(c: Config, d: Device, n: nat, e: nat) returns (steps: seq<Step>)
    requires e <= n && Fits(c, d, n) && (c.serialEngines ==> e <= 1)
    ensures RunFrom(c, Start(c, seq(n, i => Some(d))), steps) == Some(Crowd(c, d, n, n, e))
  {
    var start := Start(c, seq(n, i => Some(d)));
    if e == 0 {
      steps := AdmitMany(c, d, n, n);
    } else {
      steps := EnterMany(c, d, n, e - 1);
      var s;
      steps, s := OneMore(c, start, steps, Crowd(c, d, n, n, e - 1), Step(e - 1, EnterEngine));
      assert s.requests == Crowd(c, d, n, n, e).requests;
    }
  }

  ghost predicate AllAdmitted(s: State, d: Device, n: nat) {
    |s.requests| == n && forall r <- s.requests :: r.device == Some(d) && r.handler.Admitted?
  }

  ghost predicate AllInEngine(s: State, d: Device, n: nat) {
    AllAdmitted(s, d, n) && forall r <- s.requests :: r.job.InEngine?
  }

  lemma {:induction false} AdmittedAreHolders(c: Config, d: Device, requests: seq<Request>)
    requires forall r <- requests :: r.device == Some(d) && r.handler.Admitted?
    ensures Held(c, Global, requests) == |requests| && (d == Cpu ==> CpuAdmitted(requests) == |requests|)
  {
    if requests != [] {
      assert requests[|requests| - 1] in requests && forall r <- requests[..|requests| - 1] :: r in requests;
      AdmittedAreHolders(c, d, requests[..|requests| - 1]);
    }
  }

  /** MAIN RESULT. `n` requests for one device can be admitted together exactly when the global count
      allows it and, for the CPU, the CPU count does too if it is set. */
  lemma AdmitsExactlyWhen(c: Config, d: Device, n: nat)
    ensures (exists s: State :: Reachable(c, s) && AllAdmitted(s, d, n)) <==>
            n <= c.global && (d == Cpu && c.cpu.Some? ==> n <= c.cpu.value)
  {
    if Fits(c, d, n) {
      var steps := AdmitMany(c, d, n, n);
      var s := Crowd(c, d, n, n, 0);
      assert Reachable(c, s) && AllAdmitted(s, d, n);
    }
    forall s: State | Reachable(c, s) && AllAdmitted(s, d, n)
      ensures Fits(c, d, n)
    {
      PermitsAreConserved(c, s);
      assert Free(s, Global) + Held(c, Global, s.requests) == Permits(c, Global);
      AdmittedAreHolders(c, d, s.requests);
      if c.cpu.Some? {
        CpuJobsAreBounded(c, s);
      }
    }
  }

  /** Their jobs can run at once exactly when, besides, the engines are not serial or there is one. */
  lemma RunTogetherExactlyWhen(c: Config, d: Device, n: nat)
    ensures (exists s: State :: Reachable(c, s) && AllInEngine(s, d, n)) <==>
            n <= c.global && (d == Cpu && c.cpu.Some? ==> n <= c.cpu.value) && (c.serialEngines ==> n <= 1)
  {
    AdmitsExactlyWhen(c, d, n);
    if Fits(c, d, n) && (c.serialEngines ==> n <= 1) {
      var steps := EnterMany(c, d, n, n);
      var s := Crowd(c, d, n, n, n);
      assert Reachable(c, s) && AllInEngine(s, d, n);
    }
    forall s: State | Reachable(c, s) && AllInEngine(s, d, n)
      ensures c.serialEngines ==> n <= 1
    {
      PermitsAreConserved(c, s);
      if n >= 2 {
        assert s.requests[0] in s.requests && s.requests[1] in s.requests;
      }
    }
  }

  // ---------------------------------------------------------------- progress

  ghost predicate Positive(c: Config) {
    c.global > 0 && (c.cpu.Some? ==> c.cpu.value > 0)
  }

  /** Progress of the server itself: no client gives up and no job fails before its engine. */
  predicate Voluntary(t: Step) {
    !t.action.Drop? && !t.action.FailEarly?
  }

  /** A request with a job or an admitted handler always has, or waits for, a possible step. */
  lemma JobMoves(c: Config, s: State, i: nat) returns (t: Step)
    requires Inv(c, s) && i < |s.requests|
    requires s.requests[i].handler.Admitted? || Active(s.requests[i])
    ensures Voluntary(t) && Enabled(c, s, t)
  {
    var r := s.requests[i];
    assert r in s.requests;
    if r.job.InEngine? {
      t := Step(i, LeaveEngine);
    } else if r.job.Over? {
      t := Step(i, Reply);
    } else if Locked(c, s, r.device) {
      var j :| 0 <= j < |s.requests| && s.requests[j].job.InEngine? && s.requests[j].device == r.device;
      t := Step(j, LeaveEngine);
    } else {
      t := Step(i, EnterEngine);
    }
  }

  lemma CpuWaiterMoves(c: Config, s: State, i: nat) returns (t: Step)
    requires Inv(c, s) && Positive(c) && i < |s.requests| && s.requests[i].handler.WaitCpu?
    ensures Voluntary(t) && Enabled(c, s, t)
  {
    if s.freeCpu > 0 {
      t := Step(i, AcquireCpu);
    } else {
      assert s.requests[i] in s.requests;
      assert Free(s, CpuOnly) + Held(c, CpuOnly, s.requests) == Permits(c, CpuOnly);
      var k := SomeHolder(c, CpuOnly, s.requests);
      t := JobMoves(c, s, k);
    }
  }

  /** No deadlock: while any request is unfinished some step is possible, without counting on a
      client to give up. */
  lemma SomethingMoves(c: Config, s: State) returns (t: Step)
    requires Inv(c, s) && Positive(c) && !AllFinished(s)
    ensures Voluntary(t) && Enabled(c, s, t)
  {
    var i :| 0 <= i < |s.requests| && !Finished(s.requests[i]);
    var r := s.requests[i];
    assert r in s.requests;
    if r.handler.New? {
      t := Step(i, Action.Resolve);
    } else if r.handler.WaitCpu? {
      t := CpuWaiterMoves(c, s, i);
    } else if r.handler.WaitGlobal? {
      if s.freeGlobal > 0 {
        t := Step(i, AcquireGlobal);
      } else {
        assert Free(s, Global) + Held(c, Global, s.requests) == Permits(c, Global);
        var k := SomeHolder(c, Global, s.requests);
        if s.requests[k].handler.WaitCpu? {
          t := CpuWaiterMoves(c, s, k);
        } else {
          t := JobMoves(c, s, k);
        }
      }
    } else {
      t := JobMoves(c, s, i);
    }
  }

  // ---------------------------------------------------------------- termination

  /** The most steps a request can still take. */
  function Remaining(r: Request): nat {
    (match r.handler
     case New => 6 case WaitGlobal => 5 case WaitCpu => 4 case Admitted => 1
     case BadDevice => 0 case Replied => 0 case Dropped => 0)
    + (match r.job case Queued => 2 case InEngine => 1 case NoJob => 0 case Over => 0)
  }

  function Measure(requests: seq<Request>): nat {
    if requests == [] then 0 else Measure(requests[..|requests| - 1]) + Remaining(requests[|requests| - 1])
  }

  lemma MeasureUpdate(requests: seq<Request>, i: nat, r: Request)
    requires i < |requests|
    ensures Measure(requests[i := r]) == Measure(requests) - Remaining(requests[i]) + Remaining(r)
  {
    var k := |requests| - 1;
    if i < k {
      MeasureUpdate(requests[..k], i, r);
      assert requests[i := r][..k] == requests[..k][i := r];
    } else {
      assert requests[i := r][..k] == requests[..k];
    }
  }

  lemma MeasureAtStart(requests: seq<Request>)
    requires forall r <- requests :: r.handler.New? && r.job.NoJob?
    ensures Measure(requests) == 6 * |requests|
  {
    if requests != [] {
      assert requests[|requests| - 1] in requests;
    }
  }

  lemma StepDecreases(c: Config, s: State, t: Step)
    requires Inv(c, s) && Enabled(c, s, t)
    ensures Measure(Next(c, s, t).requests) < Measure(s.requests)
  {
    assert s.requests[t.i] in s.requests;
    MeasureUpdate(s.requests, t.i, After(c, s.requests[t.i], t.action));
  }

  lemma {:induction false} RunDecreases(c: Config, s: State, steps: seq<Step>)
    requires Inv(c, s) && RunFrom(c, s, steps).Some?
    ensures |steps| + Measure(RunFrom(c, s, steps).value.requests) <= Measure(s.requests)
  {
    if steps != [] {
      var prefix := steps[..|steps| - 1];
      RunDecreases(c, s, prefix);
      RunKeepsInv(c, s, prefix);
      StepDecreases(c, RunFrom(c, s, prefix).value, steps[|steps| - 1]);
    }
  }

  /** MAIN RESULT. Every run over n requests, whatever clients do, has at most 6n steps. */
  lemma RunsAreBounded(c: Config, devices: seq<Option<Device>>, steps: seq<Step>)
    requires RunFrom(c, Start(c, devices), steps).Some?
    ensures |steps| <= 6 * |devices|
  {
    StartInv(c, devices);
    RunDecreases(c, Start(c, devices), steps);
    MeasureAtStart(Start(c, devices).requests);
  }

  // ---------------------------------------------------------------- draining

  /** Nothing can happen unless a client gives up. */
  ghost predicate Stuck(c: Config, s: State) {
    forall t: Step :: Enabled(c, s, t) ==> t.action.Drop?
  }

  /** Whenever the server cannot move on its own, every request is finished. */
  ghost predicate AlwaysDrains(c: Config) {
    forall s: State :: Reachable(c, s) && Stuck(c, s) ==> AllFinished(s)
  }

  /** MAIN RESULT. The server drains every workload exactly when both counts are positive: with
      a zero at either gate some workload sticks for ever. */
  lemma DrainsExactlyWhenPositive(c: Config)
    ensures AlwaysDrains(c) <==> Positive(c)
  {
    if Positive(c) {
      forall s: State | Reachable(c, s) && Stuck(c, s)
        ensures AllFinished(s)
      {
        ReachableInv(c, s);
        if !AllFinished(s) {
          var t := SomethingMoves(c, s);
          assert false;
        }
      }
    } else {
      var s := SticksAtZero(c);
    }
  }

  lemma SticksAtZero(c: Config) returns (s: State)
    requires !Positive(c)
    ensures Reachable(c, s) && Stuck(c, s) && !AllFinished(s)
  {
    var devices := [Some(Cpu)];
    var start := Start(c, devices);
    var steps: seq<Step> := [];
    s := start;
    steps, s := OneMore(c, start, steps, s, Step(0, Action.Resolve));
    if c.global > 0 {
      steps, s := OneMore(c, start, steps, s, Step(0, AcquireGlobal));
    }
    assert |s.requests| == 1 && s.requests[0] in s.requests;
  }

  /** From any reachable state the server can finish every request on its own, and each request
      that was not dropped is replied to if its device resolves and refused if it does not. */
  lemma CanAlwaysDrain(c: Config, s: State) returns (steps: seq<Step>, end: State)
    requires Inv(c, s) && Positive(c)
    ensures RunFrom(c, s, steps) == Some(end) && AllFinished(end)
    ensures forall t <- steps :: Voluntary(t)
    ensures |end.requests| == |s.requests|
    ensures forall i :: 0 <= i < |s.requests| && !s.requests[i].handler.Dropped? && s.requests[i].device.Some?
                        ==> end.requests[i].handler.Replied?
    ensures forall i :: 0 <= i < |s.requests| && !s.requests[i].handler.Dropped? && s.requests[i].device.None?
                        ==> end.requests[i].handler.BadDevice?
    decreases Measure(s.requests)
  {
    if AllFinished(s) {
      steps, end := [], s;
      forall i | 0 <= i < |s.requests| && !s.requests[i].handler.Dropped?
        ensures if s.requests[i].device.Some? then s.requests[i].handler.Replied? else s.requests[i].handler.BadDevice?
      {
        assert s.requests[i] in s.requests;
      }
    } else {
      var t := SomethingMoves(c, s);
      StepKeepsInv(c, s, t);
      StepDecreases(c, s, t);
      var rest;
      rest, end := CanAlwaysDrain(c, Next(c, s, t));
      RunPrepend(c, s, t, rest);
      steps := [t] + rest;
    }
  }

  lemma RunPrepend(c: Config, s: State, t: Step, rest: seq<Step>)
    requires Enabled(c, s, t)
    ensures RunFrom(c, s, [t] + rest) == RunFrom(c, Next(c, s, t), rest)
  {
    if rest == [] {
      assert ([t] + rest)[..0] == [];
    } else {
      RunPrepend(c, s, t, rest[..|rest| - 1]);
      assert ([t] + rest)[..|rest|] == [t] + rest[..|rest| - 1];
    }
  }

  // ---------------------------------------------------------------- configuration

  /** `run`: the parsed `DIAR_MAX_INFLIGHT` and `DIAR_MAX_INFLIGHT_CPU`, zeros filtered out. */
  function FromEnvironment(maxInflight: Option<nat>, maxInflightCpu: Option<nat>, serialEngines: bool): Config {
    Config(if maxInflight.Some? && maxInflight.value > 0 then maxInflight.value else 2,
           if maxInflightCpu.Some? && maxInflightCpu.value > 0 then maxInflightCpu else None,
           serialEngines)
  }

  /** Whatever the environment says, the configured server drains. */
  lemma ConfiguredServerDrains(maxInflight: Option<nat>, maxInflightCpu: Option<nat>, serialEngines: bool)
    ensures AlwaysDrains(FromEnvironment(maxInflight, maxInflightCpu, serialEngines))
  {
    DrainsExactlyWhenPositive(FromEnvironment(maxInflight, maxInflightCpu, serialEngines));
  }

  /** What the environment allows: with `DIAR_MAX_INFLIGHT` unset or zero two requests
      at a time, with `DIAR_MAX_INFLIGHT_CPU` unset or zero no further bound on CPU requests. */
  lemma ConfiguredServerAdmitsExactlyWhen(maxInflight: Option<nat>, maxInflightCpu: Option<nat>, serialEngines: bool, d: Device, n: nat)
    ensures (exists s: State :: Reachable(FromEnvironment(maxInflight, maxInflightCpu, serialEngines), s) && AllAdmitted(s, d, n)) <==>
            && n <= (if maxInflight.None? || maxInflight == Some(0) then 2 else maxInflight.value)
            && (d == Cpu && maxInflightCpu.Some? && maxInflightCpu != Some(0) ==> n <= maxInflightCpu.value)
  {
    AdmitsExactlyWhen(FromEnvironment(maxInflight, maxInflightCpu, serialEngines), d, n);
  }
}
