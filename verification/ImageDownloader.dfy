/** `ImageDownloader` of AlamofireImage (`ImageDownloader.swift`) as a state machine. Its atomic
    steps are the blocks it runs on its serial queue, the completion of a task, and the pieces
    of a response closure between those blocks; they interleave in any order. */
module ImageDownloader {
  import opened Bytes

  datatype Url = Url(text: string)

  datatype TaskState = Suspended | Running | Cancelling | Completed

  /** A `DataRequest` and the state of its task. */
  datatype Request = Request(url: Url, state: TaskState)

  /** A `ResponseHandler`. Its `handlerID` is made together with its request, so one number
      identifies both; `ops` are the receipt IDs of its operations. */
  datatype Handler = Handler(id: nat, ops: seq<nat>)

  datatype Config = Config(max: nat, lifo: bool)

  /** The fields of the downloader, and the requests of its session. */
  datatype Core = Core(active: int, queue: seq<nat>, handlers: map<Url, Handler>, requests: map<nat, Request>)

  // ---------- the blocks ----------

  function AfterStart(c: Core, r: nat): Core
    requires r in c.requests
  {
    c.(requests := c.requests[r := c.requests[r].(state := Running)], active := c.active + 1)
  }

  function AfterEnqueue(cfg: Config, c: Core, r: nat): Core {
    c.(queue := if cfg.lifo then [r] + c.queue else c.queue + [r])
  }

  /** The block of `download`. `hit` tells whether the image cache may and does answer; `r` is
      the request that is made otherwise. */
  function AfterDownload(cfg: Config, c: Core, receipt: nat, url: Url, hit: bool, r: nat): Core {
    if url in c.handlers then
      c.(handlers := c.handlers[url := c.handlers[url].(ops := c.handlers[url].ops + [receipt])])
    else if hit then c
    else
      var made := c.(requests := c.requests[r := Request(url, Suspended)],
                     handlers := c.handlers[url := Handler(r, [receipt])]);
      if made.active < cfg.max then AfterStart(made, r) else AfterEnqueue(cfg, made, r)
  }

  function IndexOf(s: seq<nat>, x: nat): (i: nat)
    ensures i <= |s| && (i < |s| ==> s[i] == x) && (i == |s| <==> x !in s)
  {
    if s == [] then 0 else if s[0] == x then 0 else 1 + IndexOf(s[1..], x)
  }

  function Without(s: seq<nat>, x: nat): seq<nat> {
    var i := IndexOf(s, x);
    if i < |s| then s[..i] + s[i + 1..] else s
  }

  /** The block of `cancelRequest` for the receipt that came with request `r`. */
  function AfterCancel(c: Core, receipt: nat, r: nat): Core
    requires r in c.requests
  {
    var url := c.requests[r].url;
    if url !in c.handlers then c
    else
      var ops := Without(c.handlers[url].ops, receipt);
      if ops == [] && c.requests[r].state.Suspended? then
        c.(handlers := c.handlers - {url}, requests := c.requests[r := c.requests[r].(state := Cancelling)])
      else c.(handlers := c.handlers[url := c.handlers[url].(ops := ops)])
  }

  /** `cancelRequest` finds the operation of the receipt, and schedules its completion. */
  predicate CancelFinds(c: Core, receipt: nat, r: nat)
    requires r in c.requests
  {
    c.requests[r].url in c.handlers && receipt in c.handlers[c.requests[r].url].ops
  }

  /** `safelyDecrementActiveRequestCount`. */
  function AfterDecrement(c: Core): Core {
    if c.active > 0 then c.(active := c.active - 1) else c
  }

  predicate IsSuspended(c: Core, r: nat) {
    r in c.requests && c.requests[r].state.Suspended?
  }

  /** The loop of `safelyStartNextRequestIfNecessary`. */
  function AfterStartFirst(c: Core): Core
    decreases |c.queue|
  {
    if c.queue == [] then c
    else
      var c' := c.(queue := c.queue[1..]);
      if IsSuspended(c, c.queue[0]) then AfterStart(c', c.queue[0]) else AfterStartFirst(c')
  }

  /** `safelyStartNextRequestIfNecessary`. */
  function AfterStartNext(cfg: Config, c: Core): Core {
    if c.active < cfg.max then AfterStartFirst(c) else c
  }

  // ---------- the system ----------

  /** How far the response closure of a request has come. */
  datatype Phase =
    | Waiting                     // its task has not completed
    | Fetching                    // about to look its handler up
    | Removing                    // found its own handler, about to remove it
    | Scheduling(ops: seq<nat>)   // has removed a handler, these operations are still to schedule
    | Decrementing
    | StartingNext
    | Finished

  /** Why a completion was scheduled. */
  datatype Cause = CacheHit | Cancelled | Delivered(request: nat)

  datatype Completion = Completion(receipt: nat, cause: Cause)

  /** The downloader with its closures under way, and its history: the receipts handed out, the
      request each was registered with, and the completions scheduled so far. */
  datatype System = System(
    core: Core, phases: map<nat, Phase>,
    issued: set<nat>, owner: map<nat, nat>, scheduled: seq<Completion>)

  datatype Action =
    | DoDownload(receipt: nat, url: Url, hit: bool, id: nat)
    | DoCancel(receipt: nat)
    | TaskCompletes(r: nat)
    | DoFetch(r: nat)
    | DoRemove(r: nat)
    | DoSchedule(r: nat)
    | DoDecrement(r: nat)
    | DoStartNext(r: nat)

  function Init(): System {
    System(Core(0, [], map[], map[]), map[], {}, map[], [])
  }

  predicate InPhase(s: System, r: nat, p: Phase) {
    r in s.core.requests && r in s.phases && s.phases[r] == p
  }

  predicate Enabled(s: System, a: Action) {
    match a
    case DoDownload(receipt, _, _, id) => receipt !in s.issued && id !in s.core.requests
    case DoCancel(receipt) => receipt in s.owner && s.owner[receipt] in s.core.requests
    case TaskCompletes(r) =>
      InPhase(s, r, Waiting) && (s.core.requests[r].state.Running? || s.core.requests[r].state.Cancelling?)
    case DoFetch(r) => InPhase(s, r, Fetching)
    case DoRemove(r) => InPhase(s, r, Removing)
    case DoSchedule(r) => r in s.core.requests && r in s.phases && s.phases[r].Scheduling?
    case DoDecrement(r) => InPhase(s, r, Decrementing)
    case DoStartNext(r) => InPhase(s, r, StartingNext)
  }

  function Next(cfg: Config, s: System, a: Action): System
    requires Enabled(s, a)
  {
    match a
    case DoDownload(receipt, url, hit, id) =>
      var s' := s.(core := AfterDownload(cfg, s.core, receipt, url, hit, id), issued := s.issued + {receipt});
      if url in s.core.handlers then s'.(owner := s.owner[receipt := s.core.handlers[url].id])
      else if hit then s'.(scheduled := s.scheduled + [Completion(receipt, CacheHit)])
      else s'.(owner := s.owner[receipt := id], phases := s.phases[id := Waiting])
    case DoCancel(receipt) =>
      var r := s.owner[receipt];
      s.(core := AfterCancel(s.core, receipt, r),
         scheduled := if CancelFinds(s.core, receipt, r)
                      then s.scheduled + [Completion(receipt, Cancelled)] else s.scheduled)
    case TaskCompletes(r) =>
      s.(core := s.core.(requests := s.core.requests[r := s.core.requests[r].(state := Completed)]),
         phases := s.phases[r := Fetching])
    case DoFetch(r) =>
      var url := s.core.requests[r].url;
      s.(phases := s.phases[r := if url in s.core.handlers && s.core.handlers[url].id == r
                                 then Removing else Decrementing])
    case DoRemove(r) =>
      var url := s.core.requests[r].url;
      if url in s.core.handlers then
        s.(phases := s.phases[r := Scheduling(s.core.handlers[url].ops)],
           core := s.core.(handlers := s.core.handlers - {url}))
      else s.(phases := s.phases[r := Decrementing])
    case DoSchedule(r) =>
      var ops := s.phases[r].ops;
      if ops == [] then s.(phases := s.phases[r := Decrementing])
      else s.(phases := s.phases[r := Scheduling(ops[1..])],
              scheduled := s.scheduled + [Completion(ops[0], Delivered(r))])
    case DoDecrement(r) => s.(core := AfterDecrement(s.core), phases := s.phases[r := StartingNext])
    case DoStartNext(r) => s.(core := AfterStartNext(cfg, s.core), phases := s.phases[r := Finished])
  }

  // ---------- the invariant ----------

  /** Requests, closures and handlers fit together. */
  ghost predicate Linked(s: System) {
    && s.phases.Keys == s.core.requests.Keys
    && (forall r :: r in s.core.requests ==> RequestLinked(s, r))
    && (forall u :: u in s.core.handlers ==> HandlerLive(s, u))
  }

  /** A closure waits until its task completes. A suspended request is still queued, and its
      handler is the one registered for its URL; so is that of a closure about to remove it. */
  predicate RequestLinked(s: System, r: nat)
    requires r in s.core.requests && r in s.phases
  {
    && (s.phases[r].Waiting? <==> !s.core.requests[r].state.Completed?)
    && (s.core.requests[r].state.Suspended? ==> r in s.core.queue && Registered(s, r))
    && (s.phases[r].Removing? ==> Registered(s, r))
  }

  /** The handler under the URL of `r` is that of `r`. */
  predicate Registered(s: System, r: nat) {
    r in s.core.requests && s.core.requests[r].url in s.core.handlers
    && s.core.handlers[s.core.requests[r].url].id == r
  }

  /** The request of a registered handler has yet to come to its completions. */
  predicate HandlerLive(s: System, u: Url)
    requires u in s.core.handlers
  {
    var r := s.core.handlers[u].id;
    r in s.core.requests && r in s.phases && s.core.requests[r].url == u
    && (s.phases[r].Waiting? || s.phases[r].Fetching? || s.phases[r].Removing?)
    && !s.core.requests[r].state.Cancelling?
  }

  /** The completions between their decrement and their start-next section. */
  ghost function Waking(s: System): set<nat> {
    set r | r in s.phases && s.phases[r].StartingNext?
  }

  /** The requests that were started or cancelled and have yet to decrement the counter. */
  ghost function InFlight(s: System): set<nat> {
    set r | r in s.phases && r in s.core.requests && !s.core.requests[r].state.Suspended?
            && !s.phases[r].StartingNext? && !s.phases[r].Finished?
  }

  /** The counter stays in bounds, never exceeds what is in flight, and no wakeup is lost. */
  ghost predicate Counted(cfg: Config, s: System) {
    && 0 <= s.core.active <= cfg.max
    && s.core.active <= |InFlight(s)|
    && ((exists r :: IsSuspended(s.core, r)) ==> s.core.active + |Waking(s)| >= cfg.max)
  }

  predicate NoRepeats(s: seq<nat>) {
    forall i, j :: 0 <= i < j < |s| ==> s[i] != s[j]
  }

  predicate IsScheduled(s: System, x: nat) {
    exists i :: 0 <= i < |s.scheduled| && s.scheduled[i].receipt == x
  }

  /** `x` is an operation of the handler or of the closure of request `r`. */
  predicate IsPending(s: System, x: nat, r: nat) {
    (Registered(s, r) && x in s.core.handlers[s.core.requests[r].url].ops)
    || (r in s.phases && s.phases[r].Scheduling? && x in s.phases[r].ops)
  }

  /** What is pending with a request was registered with it, and is not scheduled. */
  predicate PairTracked(s: System, x: nat, r: nat) {
    IsPending(s, x, r) ==> x in s.owner && s.owner[x] == r && !IsScheduled(s, x)
  }

  /** A receipt is scheduled or pending with the request it was registered with. */
  predicate ReceiptTracked(s: System, x: nat) {
    x in s.issued ==> IsScheduled(s, x) || (x in s.owner && IsPending(s, x, s.owner[x]))
  }

  /** Every operation is in exactly one place: a handler, a closure's batch, or scheduled. */
  ghost predicate Tracked(s: System) {
    && s.owner.Keys <= s.issued
    && (forall x :: x in s.owner ==> s.owner[x] in s.core.requests)
    && (forall x: nat :: ReceiptTracked(s, x))
    && (forall x: nat, r: nat :: PairTracked(s, x, r))
    && (forall u :: u in s.core.handlers ==> NoRepeats(s.core.handlers[u].ops))
    && (forall r :: r in s.phases && s.phases[r].Scheduling? ==> NoRepeats(s.phases[r].ops))
  }

  /** What the completions scheduled so far have in common. */
  ghost predicate Sound(s: System) {
    && (forall i, j :: 0 <= i < j < |s.scheduled| ==> s.scheduled[i].receipt != s.scheduled[j].receipt)
    && (forall i :: 0 <= i < |s.scheduled| ==>
          s.scheduled[i].receipt in s.issued
          && (s.scheduled[i].cause.Delivered? ==>
                s.scheduled[i].receipt in s.owner && s.owner[s.scheduled[i].receipt] == s.scheduled[i].cause.request))
  }

  ghost predicate Inv(cfg: Config, s: System) {
    Linked(s) && Counted(cfg, s) && Tracked(s) && Sound(s)
  }

  // ---------- Linked ----------

  lemma {:induction false} StartFirstKeeps(c: Core)
    ensures AfterStartFirst(c).handlers == c.handlers && AfterStartFirst(c).requests.Keys == c.requests.Keys
    decreases |c.queue|
  {
    if c.queue != [] && !IsSuspended(c, c.queue[0]) { StartFirstKeeps(c.(queue := c.queue[1..])); }
  }

  /** A request that is not started stays as it is, and if it is suspended it stays queued. */
  lemma {:induction false} StartFirstRequest(c: Core, r: nat)
    requires r in c.requests
    ensures var c' := AfterStartFirst(c);
            r in c'.requests && c'.requests[r].url == c.requests[r].url
            && (c'.requests[r] == c.requests[r] || (c.requests[r].state.Suspended? && c'.requests[r].state.Running?))
            && (c'.requests[r].state.Suspended? && r in c.queue ==> r in c'.queue)
    decreases |c.queue|
  {
    if c.queue != [] {
      var c1 := c.(queue := c.queue[1..]);
      assert r in c.queue && r != c.queue[0] ==> r in c1.queue;
      if !IsSuspended(c, c.queue[0]) { StartFirstRequest(c1, r); }
    }
  }

  /** The request an action is about, if it is there already. */
  function About(s: System, a: Action): Option<nat> {
    match a
    case DoDownload(_, _, _, _) => None
    case DoCancel(x) => if x in s.owner then Some(s.owner[x]) else None
    case TaskCompletes(r) => Some(r)
    case DoFetch(r) => Some(r)
    case DoRemove(r) => Some(r)
    case DoSchedule(r) => Some(r)
    case DoDecrement(r) => Some(r)
    case DoStartNext(r) => Some(r)
  }

  lemma {:induction false} DownloadKeeps(cfg: Config, s: System, a: Action, r: nat)
    requires a.DoDownload? && Enabled(s, a) && r in s.core.requests && r in s.phases
    ensures var s' := Next(cfg, s, a);
            r in s'.core.requests && s'.core.requests[r] == s.core.requests[r]
            && r in s'.phases && s'.phases[r] == s.phases[r]
            && (r in s.core.queue ==> r in s'.core.queue) && (Registered(s, r) ==> Registered(s', r))
  {
  }

  lemma {:induction false} DownloadAdds(cfg: Config, s: System, a: Action, r: nat)
    requires a.DoDownload? && Enabled(s, a) && r !in s.core.requests && r in Next(cfg, s, a).core.requests
    ensures r in Next(cfg, s, a).phases && RequestLinked(Next(cfg, s, a), r)
  {
  }

  lemma {:induction false} RequestLinkedDownload(cfg: Config, s: System, a: Action, r: nat)
    requires a.DoDownload?
    requires Enabled(s, a) && s.phases.Keys == s.core.requests.Keys && r in Next(cfg, s, a).core.requests
    requires r in s.core.requests ==> RequestLinked(s, r)
    ensures r in Next(cfg, s, a).phases && RequestLinked(Next(cfg, s, a), r)
  {
    hide Next, Registered;
    if r in s.core.requests { DownloadKeeps(cfg, s, a, r); } else { DownloadAdds(cfg, s, a, r); }
  }

  lemma {:induction false} RequestLinkedCancel(cfg: Config, s: System, a: Action, r: nat)
    requires a.DoCancel?
    requires Enabled(s, a) && s.phases.Keys == s.core.requests.Keys && r in Next(cfg, s, a).core.requests
    requires r in s.core.requests ==> RequestLinked(s, r)
    requires About(s, a).Some? ==> RequestLinked(s, About(s, a).value)
    ensures r in Next(cfg, s, a).phases && RequestLinked(Next(cfg, s, a), r)
  {
    hide AfterStartFirst, Without;
  }

  lemma {:induction false} RequestLinkedClosure(cfg: Config, s: System, a: Action, r: nat)
    requires !a.DoDownload? && !a.DoCancel?
    requires Enabled(s, a) && s.phases.Keys == s.core.requests.Keys && r in Next(cfg, s, a).core.requests
    requires r in s.core.requests ==> RequestLinked(s, r)
    requires About(s, a).Some? ==> RequestLinked(s, About(s, a).value)
    ensures r in Next(cfg, s, a).phases && RequestLinked(Next(cfg, s, a), r)
  {
    hide AfterStartFirst, Without;
    if a.DoStartNext? {
      StartFirstKeeps(s.core);
      StartFirstRequest(s.core, r);
    }
  }

  lemma {:induction false} HandlerLiveDownload(cfg: Config, s: System, a: Action, u: Url)
    requires a.DoDownload?
    requires Enabled(s, a) && s.phases.Keys == s.core.requests.Keys && u in Next(cfg, s, a).core.handlers
    requires u in s.core.handlers ==> HandlerLive(s, u)
    ensures HandlerLive(Next(cfg, s, a), u)
  {
    hide AfterStartFirst, Without;
  }

  lemma {:induction false} HandlerLiveCancel(cfg: Config, s: System, a: Action, u: Url)
    requires a.DoCancel?
    requires Enabled(s, a) && s.phases.Keys == s.core.requests.Keys && u in Next(cfg, s, a).core.handlers
    requires u in s.core.handlers ==> HandlerLive(s, u)
    requires About(s, a).Some? ==> RequestLinked(s, About(s, a).value)
    ensures HandlerLive(Next(cfg, s, a), u)
  {
    hide AfterStartFirst, Without;
  }

  lemma {:induction false} HandlerLiveClosure(cfg: Config, s: System, a: Action, u: Url)
    requires !a.DoDownload? && !a.DoCancel?
    requires Enabled(s, a) && s.phases.Keys == s.core.requests.Keys && u in Next(cfg, s, a).core.handlers
    requires u in s.core.handlers ==> HandlerLive(s, u)
    requires About(s, a).Some? ==> RequestLinked(s, About(s, a).value)
    ensures HandlerLive(Next(cfg, s, a), u)
  {
    hide AfterStartFirst, Without;
    if a.DoStartNext? {
      StartFirstKeeps(s.core);
      StartFirstRequest(s.core, s.core.handlers[u].id);
    }
  }

  lemma {:induction false} NextKeys(cfg: Config, s: System, a: Action)
    requires Enabled(s, a) && s.phases.Keys == s.core.requests.Keys
    ensures Next(cfg, s, a).phases.Keys == Next(cfg, s, a).core.requests.Keys
  {
    hide AfterStartFirst, Without;
    StartFirstKeeps(s.core);
  }

  lemma {:induction false} LinkedNext(cfg: Config, s: System, a: Action)
    requires Linked(s) && Enabled(s, a)
    ensures Linked(Next(cfg, s, a))
  {
    hide Registered, RequestLinked, HandlerLive, Next;
    NextKeys(cfg, s, a);
    var s' := Next(cfg, s, a);
    forall r | r in s'.core.requests ensures r in s'.phases && RequestLinked(s', r) {
      if a.DoDownload? {
        RequestLinkedDownload(cfg, s, a, r);
      } else if a.DoCancel? {
        RequestLinkedCancel(cfg, s, a, r);
      } else {
        RequestLinkedClosure(cfg, s, a, r);
      }
    }
    forall u | u in s'.core.handlers ensures HandlerLive(s', u) {
      if a.DoDownload? {
        HandlerLiveDownload(cfg, s, a, u);
      } else if a.DoCancel? {
        HandlerLiveCancel(cfg, s, a, u);
      } else {
        HandlerLiveClosure(cfg, s, a, u);
      }
    }
  }

  // ---------- Counted ----------

  /** The loop starts the first suspended request of the queue and drops what precedes it, or
      empties a queue that has none. */
  lemma {:induction false} StartFirstStarts(c: Core) returns (q: Option<nat>, pre: seq<nat>)
    ensures forall r :: r in pre ==> !IsSuspended(c, r)
    ensures q.Some? ==> IsSuspended(c, q.value) && c.queue == pre + [q.value] + AfterStartFirst(c).queue
                        && AfterStartFirst(c) == AfterStart(c.(queue := AfterStartFirst(c).queue), q.value)
    ensures q.None? ==> c.queue == pre && AfterStartFirst(c) == c.(queue := [])
    decreases |c.queue|
  {
    if c.queue == [] {
      q, pre := None, [];
    } else if IsSuspended(c, c.queue[0]) {
      q, pre := Some(c.queue[0]), [];
      assert c.queue == [c.queue[0]] + c.queue[1..];
    } else {
      var c1 := c.(queue := c.queue[1..]);
      q, pre := StartFirstStarts(c1);
      assert forall r :: IsSuspended(c1, r) <==> IsSuspended(c, r);
      pre := [c.queue[0]] + pre;
      assert c.queue == [c.queue[0]] + c1.queue;
      if q.Some? {
        var rest := [q.value] + AfterStartFirst(c).queue;
        assert c.queue == pre + rest;
      }
    }
  }

  ghost predicate AnySuspended(s: System) {
    exists r :: IsSuspended(s.core, r)
  }

  /** A download leaves the requests alone, or adds one: started if the limit allows it, and
      suspended otherwise. */
  lemma {:induction false} DownloadCases(cfg: Config, s: System, a: Action)
    requires a.DoDownload? && Enabled(s, a)
    ensures Next(cfg, s, a).core.requests == s.core.requests || a.id !in s.core.requests
    ensures var s' := Next(cfg, s, a);
            || (s'.core.requests == s.core.requests && s'.phases == s.phases && s'.core.active == s.core.active)
            || (s'.phases == s.phases[a.id := Waiting]
                && if s.core.active < cfg.max
                   then s'.core.requests == s.core.requests[a.id := Request(a.url, Running)]
                        && s'.core.active == s.core.active + 1
                   else s'.core.requests == s.core.requests[a.id := Request(a.url, Suspended)]
                        && s'.core.active == s.core.active)
  {
  }

  lemma {:induction false} SetsOfNew(s: System, s': System, r: nat, q: Request)
    requires s.phases.Keys == s.core.requests.Keys && r !in s.core.requests && (q.state.Running? || q.state.Suspended?)
    requires s'.phases == s.phases[r := Waiting] && s'.core.requests == s.core.requests[r := q]
    ensures Waking(s') == Waking(s)
    ensures r !in InFlight(s) && InFlight(s') == if q.state.Running? then InFlight(s) + {r} else InFlight(s)
    ensures AnySuspended(s') && q.state.Running? ==> AnySuspended(s)
  {
    if AnySuspended(s') && q.state.Running? {
      var x :| IsSuspended(s'.core, x);
      assert IsSuspended(s.core, x);
    }
  }

  lemma {:induction false} SetsOfSame(s: System, s': System)
    requires s'.phases == s.phases && s'.core.requests == s.core.requests
    ensures Waking(s') == Waking(s) && InFlight(s') == InFlight(s) && (AnySuspended(s') ==> AnySuspended(s))
  {
    if AnySuspended(s') {
      var x :| IsSuspended(s'.core, x);
      assert IsSuspended(s.core, x);
    }
  }

  lemma {:induction false} CountedDownload(cfg: Config, s: System, a: Action)
    requires a.DoDownload? && Linked(s) && Counted(cfg, s) && Enabled(s, a)
    ensures Counted(cfg, Next(cfg, s, a))
  {
    hide RequestLinked, HandlerLive, Next, Waking, InFlight;
    var s' := Next(cfg, s, a);
    DownloadCases(cfg, s, a);
    if s'.core.requests == s.core.requests {
      SetsOfSame(s, s');
    } else {
      SetsOfNew(s, s', a.id, s'.core.requests[a.id]);
    }
  }

  lemma {:induction false} CountedCancel(cfg: Config, s: System, a: Action)
    requires a.DoCancel? && Linked(s) && Counted(cfg, s) && Enabled(s, a)
    ensures Counted(cfg, Next(cfg, s, a))
  {
    hide HandlerLive, Without;
    var s' := Next(cfg, s, a);
    var r := s.owner[a.receipt];
    assert Waking(s') == Waking(s);
    if s'.core.requests[r].state.Cancelling? && !s.core.requests[r].state.Cancelling? {
      assert RequestLinked(s, r);
      assert InFlight(s') == InFlight(s) + {r};
    } else {
      assert InFlight(s') == InFlight(s);
    }
    if AnySuspended(s') {
      var q :| IsSuspended(s'.core, q);
      assert IsSuspended(s.core, q);
    }
  }

  /** Between the completion of its task and its decrement a closure does not matter for the count. */
  lemma {:induction false} CountedClosure(cfg: Config, s: System, a: Action)
    requires a.TaskCompletes? || a.DoFetch? || a.DoRemove? || a.DoSchedule?
    requires Linked(s) && Counted(cfg, s) && Enabled(s, a)
    ensures Counted(cfg, Next(cfg, s, a))
  {
    hide HandlerLive, Registered;
    var s' := Next(cfg, s, a);
    assert RequestLinked(s, a.r);
    assert Waking(s') == Waking(s);
    assert InFlight(s') == InFlight(s);
    if AnySuspended(s') {
      var q :| IsSuspended(s'.core, q);
      assert IsSuspended(s.core, q);
    }
  }

  lemma {:induction false} CountedDecrement(cfg: Config, s: System, a: Action)
    requires a.DoDecrement? && Linked(s) && Counted(cfg, s) && Enabled(s, a)
    ensures Counted(cfg, Next(cfg, s, a))
  {
    hide HandlerLive, Registered;
    var s' := Next(cfg, s, a);
    assert RequestLinked(s, a.r);
    assert Waking(s') == Waking(s) + {a.r} && a.r !in Waking(s);
    assert InFlight(s') == InFlight(s) - {a.r} && a.r in InFlight(s);
    if AnySuspended(s') {
      var q :| IsSuspended(s'.core, q);
      assert IsSuspended(s.core, q);
    }
  }

  /** Starting the next request, apart from the closure that does it. */
  lemma {:induction false} CountedStart(cfg: Config, s: System)
    requires Linked(s) && s.core.active < cfg.max && 0 <= s.core.active <= |InFlight(s)|
    ensures var s' := s.(core := AfterStartFirst(s.core));
            Waking(s') == Waking(s) && 0 <= s'.core.active <= |InFlight(s')| && s'.core.active <= cfg.max
            && (AnySuspended(s') ==> AnySuspended(s) && s'.core.active == s.core.active + 1)
  {
    hide HandlerLive, Registered, AfterStartFirst;
    var s' := s.(core := AfterStartFirst(s.core));
    var q, _ := StartFirstStarts(s.core);
    if q.Some? {
      assert RequestLinked(s, q.value);
      assert InFlight(s') == InFlight(s) + {q.value} && q.value !in InFlight(s);
    } else {
      assert InFlight(s') == InFlight(s);
    }
    if AnySuspended(s') {
      var r :| IsSuspended(s'.core, r);
      assert IsSuspended(s.core, r) && RequestLinked(s, r);
    }
  }

  lemma {:induction false} CountedStartNext(cfg: Config, s: System, a: Action)
    requires a.DoStartNext? && Linked(s) && Counted(cfg, s) && Enabled(s, a)
    ensures Counted(cfg, Next(cfg, s, a))
  {
    hide AfterStartFirst, RequestLinked, HandlerLive, Linked;
    var s' := Next(cfg, s, a);
    if s.core.active < cfg.max { CountedStart(cfg, s); }
    var s1 := s.(core := AfterStartNext(cfg, s.core));
    assert Waking(s') == Waking(s1) - {a.r} && a.r in Waking(s1);
    assert InFlight(s') == InFlight(s1);
    if AnySuspended(s') {
      var r :| IsSuspended(s'.core, r);
      assert IsSuspended(s1.core, r);
    }
  }

  // ---------- Tracked ----------

  lemma {:induction false} WithoutOnce(ops: seq<nat>, x: nat)
    requires NoRepeats(ops)
    ensures NoRepeats(Without(ops, x)) && forall y :: y in Without(ops, x) <==> y in ops && y != x
  {
    var i := IndexOf(ops, x);
    if i < |ops| {
      hide IndexOf;
      var rest := ops[..i] + ops[i + 1..];
      forall y ensures y in rest <==> y in ops && y != x {
        if k :| 0 <= k < |ops| && ops[k] == y && y != x { assert rest[if k < i then k else k - 1] == y; }
        if y in rest { var k :| 0 <= k < |rest| && rest[k] == y; assert ops[if k < i then k else k + 1] == y; }
      }
    }
  }

  lemma {:induction false} ScheduledMore(s: System, s': System, c: Completion, x: nat)
    requires s'.scheduled == s.scheduled + [c]
    ensures IsScheduled(s', x) <==> IsScheduled(s, x) || x == c.receipt
  {
    assert s'.scheduled[|s.scheduled|] == c;
    if IsScheduled(s, x) {
      var i :| 0 <= i < |s.scheduled| && s.scheduled[i].receipt == x;
      assert s'.scheduled[i].receipt == x;
    }
  }

  predicate Quiet(a: Action) {
    a.TaskCompletes? || a.DoFetch? || a.DoDecrement? || a.DoStartNext?
  }

  /** These steps move no operation. */
  lemma {:induction false} QuietPending(cfg: Config, s: System, a: Action, x: nat, r: nat)
    requires Quiet(a) && Enabled(s, a) && s.phases.Keys == s.core.requests.Keys
    ensures IsPending(Next(cfg, s, a), x, r) <==> IsPending(s, x, r)
    ensures IsScheduled(Next(cfg, s, a), x) <==> IsScheduled(s, x)
  {
    hide AfterStartFirst;
    if a.DoStartNext? {
      StartFirstKeeps(s.core);
      if r in s.core.requests { StartFirstRequest(s.core, r); }
    }
  }

  lemma {:induction false} TrackedQuiet(cfg: Config, s: System, a: Action)
    requires Quiet(a) && Linked(s) && Tracked(s) && Enabled(s, a)
    ensures Tracked(Next(cfg, s, a))
  {
    hide AfterStartFirst, IsPending, IsScheduled, NoRepeats, RequestLinked, HandlerLive;
    var s' := Next(cfg, s, a);
    StartFirstKeeps(s.core);
    forall x: nat ensures ReceiptTracked(s', x) {
      assert ReceiptTracked(s, x);
      if x in s.owner { QuietPending(cfg, s, a, x, s.owner[x]); } else { QuietPending(cfg, s, a, x, 0); }
    }
    forall x: nat, r: nat ensures PairTracked(s', x, r) {
      assert PairTracked(s, x, r);
      QuietPending(cfg, s, a, x, r);
    }
  }

  lemma {:induction false} DownloadPending(cfg: Config, s: System, a: Action, x: nat, r: nat)
    requires a.DoDownload? && Linked(s) && Enabled(s, a)
    ensures var s' := Next(cfg, s, a);
            IsPending(s', x, r) <==>
              IsPending(s, x, r) || (x == a.receipt && x in s'.owner && r == s'.owner[x]
                                     && (a.url in s.core.handlers || !a.hit))
  {
    hide RequestLinked;
  }

  /** A download registers its receipt with one request, or with none when the cache answers. */
  lemma {:induction false} DownloadOwner(cfg: Config, s: System, a: Action)
    requires a.DoDownload? && Linked(s) && Tracked(s) && Enabled(s, a)
    ensures var s' := Next(cfg, s, a);
            && s'.issued == s.issued + {a.receipt}
            && (a.receipt in s'.owner <==> a.url in s.core.handlers || !a.hit)
            && (forall x :: x in s.owner ==> x in s'.owner && s'.owner[x] == s.owner[x])
            && (forall x :: x in s'.owner ==> s'.owner[x] in s'.core.requests && (x in s.owner || x == a.receipt))
            && (forall r :: r in s'.phases && s'.phases[r].Scheduling? ==> r in s.phases && s'.phases[r] == s.phases[r])
  {
    hide IsPending, IsScheduled, RequestLinked, NoRepeats, PairTracked, ReceiptTracked;
    if a.url in s.core.handlers { assert HandlerLive(s, a.url); }
  }

  lemma {:induction false} DownloadOps(cfg: Config, s: System, a: Action, u: Url)
    requires a.DoDownload? && Linked(s) && Tracked(s) && Enabled(s, a) && u in Next(cfg, s, a).core.handlers
    ensures NoRepeats(Next(cfg, s, a).core.handlers[u].ops)
  {
    hide IsPending, IsScheduled, RequestLinked, HandlerLive;
    if u in s.core.handlers && a.receipt in s.core.handlers[u].ops {
      OpsPending(s, u, a.receipt);
      assert PairTracked(s, a.receipt, s.core.handlers[u].id);
    }
  }

  lemma {:induction false} TrackedDownload(cfg: Config, s: System, a: Action)
    requires a.DoDownload? && Linked(s) && Tracked(s) && Sound(s) && Enabled(s, a)
    ensures Tracked(Next(cfg, s, a))
  {
    hide IsPending, IsScheduled, NoRepeats, Linked, Sound, Next;
    var s' := Next(cfg, s, a);
    NotScheduled(s, a.receipt);
    DownloadOwner(cfg, s, a);
    forall u | u in s'.core.handlers ensures NoRepeats(s'.core.handlers[u].ops) { DownloadOps(cfg, s, a, u); }
    forall x: nat ensures ReceiptTracked(s', x) {
      assert ReceiptTracked(s, x);
      DownloadScheduled(cfg, s, a, x);
      if x in s'.owner { DownloadPending(cfg, s, a, x, s'.owner[x]); }
    }
    forall x: nat, r: nat ensures PairTracked(s', x, r) {
      assert PairTracked(s, x, r);
      DownloadScheduled(cfg, s, a, x);
      DownloadPending(cfg, s, a, x, r);
    }
  }

  lemma {:induction false} OpsPending(s: System, u: Url, x: nat)
    requires Linked(s) && u in s.core.handlers && x in s.core.handlers[u].ops
    ensures IsPending(s, x, s.core.handlers[u].id)
  {
    assert HandlerLive(s, u);
  }

  lemma {:induction false} NotScheduled(s: System, x: nat)
    requires Sound(s) && x !in s.issued
    ensures !IsScheduled(s, x)
  {
  }

  lemma {:induction false} DownloadScheduled(cfg: Config, s: System, a: Action, x: nat)
    requires a.DoDownload? && Enabled(s, a)
    ensures IsScheduled(Next(cfg, s, a), x)
       <==> IsScheduled(s, x) || (x == a.receipt && a.url !in s.core.handlers && a.hit)
  {
    if a.url !in s.core.handlers && a.hit {
      ScheduledMore(s, Next(cfg, s, a), Completion(a.receipt, CacheHit), x);
    }
  }

  /** What cancelling a receipt does to the pending operations: it takes out its own. */
  lemma {:induction false} CancelPending(cfg: Config, s: System, a: Action, x: nat, r: nat)
    requires a.DoCancel? && Linked(s) && Tracked(s) && Enabled(s, a)
    ensures var s' := Next(cfg, s, a);
            IsPending(s', x, r) <==>
              IsPending(s, x, r) && !(x == a.receipt && CancelFinds(s.core, x, s.owner[x]))
  {
    hide IsScheduled, Without;
    var url := s.core.requests[s.owner[a.receipt]].url;
    assert PairTracked(s, x, r);
    if url in s.core.handlers {
      var h := s.core.handlers[url];
      assert HandlerLive(s, url);
      WithoutOnce(h.ops, a.receipt);
      if a.receipt in h.ops {
        OpsPending(s, url, a.receipt);
        assert PairTracked(s, a.receipt, h.id);
      }
      if IsSuspended(s.core, s.owner[a.receipt]) { assert RequestLinked(s, s.owner[a.receipt]); }
      if x in h.ops {
        OpsPending(s, url, x);
        assert PairTracked(s, x, h.id);
      }
    }
  }

  lemma {:induction false} CancelScheduled(cfg: Config, s: System, a: Action, x: nat)
    requires a.DoCancel? && Enabled(s, a)
    ensures IsScheduled(Next(cfg, s, a), x)
       <==> IsScheduled(s, x) || (x == a.receipt && CancelFinds(s.core, x, s.owner[x]))
  {
    hide IsScheduled, AfterCancel;
    if CancelFinds(s.core, a.receipt, s.owner[a.receipt]) {
      ScheduledMore(s, Next(cfg, s, a), Completion(a.receipt, Cancelled), x);
    } else {
      SameScheduled(s, Next(cfg, s, a), x);
    }
  }

  lemma {:induction false} SameScheduled(s: System, s': System, x: nat)
    requires s'.scheduled == s.scheduled
    ensures IsScheduled(s', x) <==> IsScheduled(s, x)
  {
  }

  lemma {:induction false} TrackedCancel(cfg: Config, s: System, a: Action)
    requires a.DoCancel? && Linked(s) && Tracked(s) && Enabled(s, a)
    ensures Tracked(Next(cfg, s, a))
  {
    hide IsPending, IsScheduled, RequestLinked, HandlerLive, Without, CancelFinds;
    var s' := Next(cfg, s, a);
    forall x: nat ensures ReceiptTracked(s', x) {
      assert ReceiptTracked(s, x);
      CancelScheduled(cfg, s, a, x);
      if x in s.owner { CancelPending(cfg, s, a, x, s.owner[x]); }
    }
    forall x: nat, r: nat ensures PairTracked(s', x, r) {
      assert PairTracked(s, x, r);
      CancelScheduled(cfg, s, a, x);
      CancelPending(cfg, s, a, x, r);
    }
    var url := s.core.requests[s.owner[a.receipt]].url;
    if url in s.core.handlers { WithoutOnce(s.core.handlers[url].ops, a.receipt); }
  }

  lemma {:induction false} RemovePending(cfg: Config, s: System, a: Action, x: nat, r: nat)
    requires a.DoRemove? && Linked(s) && Enabled(s, a)
    ensures IsPending(Next(cfg, s, a), x, r) <==> IsPending(s, x, r)
    ensures IsScheduled(Next(cfg, s, a), x) <==> IsScheduled(s, x)
  {
    hide HandlerLive;
    assert RequestLinked(s, a.r);
  }

  lemma {:induction false} TrackedRemove(cfg: Config, s: System, a: Action)
    requires a.DoRemove? && Linked(s) && Tracked(s) && Enabled(s, a)
    ensures Tracked(Next(cfg, s, a))
  {
    hide IsPending, IsScheduled, RequestLinked, HandlerLive;
    var s' := Next(cfg, s, a);
    forall x: nat ensures ReceiptTracked(s', x) {
      assert ReceiptTracked(s, x);
      RemovePending(cfg, s, a, x, if x in s.owner then s.owner[x] else 0);
    }
    forall x: nat, r: nat ensures PairTracked(s', x, r) {
      assert PairTracked(s, x, r);
      RemovePending(cfg, s, a, x, r);
    }
  }

  lemma {:induction false} SchedulePending(cfg: Config, s: System, a: Action, x: nat, r: nat)
    requires a.DoSchedule? && Linked(s) && Tracked(s) && Enabled(s, a)
    ensures var ops := s.phases[a.r].ops;
            (IsPending(Next(cfg, s, a), x, r) <==> IsPending(s, x, r) && !(ops != [] && x == ops[0]))
            && (IsScheduled(Next(cfg, s, a), x) <==> IsScheduled(s, x) || (ops != [] && x == ops[0]))
  {
    hide IsScheduled, RequestLinked;
    var ops := s.phases[a.r].ops;
    if ops != [] {
      assert ops == [ops[0]] + ops[1..];
      ScheduledMore(s, Next(cfg, s, a), Completion(ops[0], Delivered(a.r)), x);
      assert IsPending(s, ops[0], a.r);
      assert PairTracked(s, ops[0], a.r) && PairTracked(s, ops[0], r);
      assert !Registered(s, a.r);
    } else {
      SameScheduled(s, Next(cfg, s, a), x);
    }
  }

  lemma {:induction false} TrackedSchedule(cfg: Config, s: System, a: Action)
    requires a.DoSchedule? && Linked(s) && Tracked(s) && Enabled(s, a)
    ensures Tracked(Next(cfg, s, a))
  {
    hide IsPending, IsScheduled, RequestLinked, HandlerLive;
    var s' := Next(cfg, s, a);
    forall x: nat ensures ReceiptTracked(s', x) {
      assert ReceiptTracked(s, x);
      SchedulePending(cfg, s, a, x, if x in s.owner then s.owner[x] else 0);
    }
    forall x: nat, r: nat ensures PairTracked(s', x, r) {
      assert PairTracked(s, x, r);
      SchedulePending(cfg, s, a, x, r);
    }
  }

  // ---------- Sound, and the whole invariant ----------

  lemma {:induction false} SoundMore(s: System, s': System, c: Completion)
    requires Sound(s) && s'.scheduled == s.scheduled + [c] && !IsScheduled(s, c.receipt)
    requires s.issued <= s'.issued && c.receipt in s'.issued
    requires forall x :: x in s.owner ==> x in s'.owner && s'.owner[x] == s.owner[x]
    requires c.cause.Delivered? ==> c.receipt in s'.owner && s'.owner[c.receipt] == c.cause.request
    ensures Sound(s')
  {
    var n := |s.scheduled|;
    forall i | 0 <= i < n ensures s'.scheduled[i] == s.scheduled[i] && s.scheduled[i].receipt != c.receipt {}
    assert s'.scheduled[n] == c;
  }

  lemma {:induction false} SoundNext(cfg: Config, s: System, a: Action)
    requires Linked(s) && Tracked(s) && Sound(s) && Enabled(s, a)
    ensures Sound(Next(cfg, s, a))
  {
    hide IsScheduled, RequestLinked, HandlerLive, Without;
    var s' := Next(cfg, s, a);
    if a.DoDownload? {
      NotScheduled(s, a.receipt);
      assert forall x :: x in s.owner ==> x != a.receipt;
      if s'.scheduled != s.scheduled { SoundMore(s, s', Completion(a.receipt, CacheHit)); }
    } else if a.DoCancel? {
      var r := s.owner[a.receipt];
      if CancelFinds(s.core, a.receipt, r) {
        var url := s.core.requests[r].url;
        OpsPending(s, url, a.receipt);
        assert PairTracked(s, a.receipt, s.core.handlers[url].id);
        SoundMore(s, s', Completion(a.receipt, Cancelled));
      }
    } else if a.DoSchedule? && s.phases[a.r].ops != [] {
      var x := s.phases[a.r].ops[0];
      assert IsPending(s, x, a.r) && PairTracked(s, x, a.r);
      SoundMore(s, s', Completion(x, Delivered(a.r)));
    }
  }

  /** Every step of every interleaving keeps the invariant. */
  lemma {:induction false} InvNext(cfg: Config, s: System, a: Action)
    requires Inv(cfg, s) && Enabled(s, a)
    ensures Inv(cfg, Next(cfg, s, a))
  {
    hide Linked, Counted, Tracked, Sound, Next;
    LinkedNext(cfg, s, a);
    SoundNext(cfg, s, a);
    match a
    case DoDownload(_, _, _, _) => CountedDownload(cfg, s, a); TrackedDownload(cfg, s, a);
    case DoCancel(_) => CountedCancel(cfg, s, a); TrackedCancel(cfg, s, a);
    case TaskCompletes(_) => CountedClosure(cfg, s, a); TrackedQuiet(cfg, s, a);
    case DoFetch(_) => CountedClosure(cfg, s, a); TrackedQuiet(cfg, s, a);
    case DoRemove(_) => CountedClosure(cfg, s, a); TrackedRemove(cfg, s, a);
    case DoSchedule(_) => CountedClosure(cfg, s, a); TrackedSchedule(cfg, s, a);
    case DoDecrement(_) => CountedDecrement(cfg, s, a); TrackedQuiet(cfg, s, a);
    case DoStartNext(_) => CountedStartNext(cfg, s, a); TrackedQuiet(cfg, s, a);
  }

  // ---------- runs ----------

  ghost predicate Runs(cfg: Config, actions: seq<Action>, states: seq<System>) {
    && |states| == |actions| + 1
    && states[0] == Init()
    && forall i :: 0 <= i < |actions| ==>
         Enabled(states[i], actions[i]) && states[i + 1] == Next(cfg, states[i], actions[i])
  }

  lemma {:induction false} RunInv(cfg: Config, actions: seq<Action>, states: seq<System>, i: nat)
    requires Runs(cfg, actions, states) && i <= |actions|
    ensures Inv(cfg, states[i])
    decreases i
  {
    hide Next, Inv;
    if i == 0 {
      InitInv(cfg);
    } else {
      RunInv(cfg, actions, states, i - 1);
      assert Enabled(states[i - 1], actions[i - 1]);
      InvNext(cfg, states[i - 1], actions[i - 1]);
    }
  }

  lemma {:induction false} InitInv(cfg: Config)
    ensures Inv(cfg, Init())
  {
    assert InFlight(Init()) == {};
  }

  /** The counter is never out of bounds, and while a suspended request is queued, the active
      requests and the completions between their decrement and their start-next section are
      together at least the maximum: no wakeup is lost. */
  lemma {:induction false} NoLostWakeup(cfg: Config, actions: seq<Action>, states: seq<System>, i: nat)
    requires Runs(cfg, actions, states) && i <= |actions|
    ensures 0 <= states[i].core.active <= cfg.max && states[i].core.active <= |InFlight(states[i])|
    ensures (exists r :: r in states[i].core.queue && IsSuspended(states[i].core, r)) ==>
              states[i].core.active + |Waking(states[i])| >= cfg.max
  {
    hide Next, Linked, Tracked, Sound;
    RunInv(cfg, actions, states, i);
  }

  /** Each download's completion is scheduled at most once; none is dropped; and a request's
      closure only ever schedules completions that were registered with that request. */
  lemma {:induction false} ExactlyOnce(cfg: Config, actions: seq<Action>, states: seq<System>, i: nat, x: nat)
    requires Runs(cfg, actions, states) && i <= |actions| && x in states[i].issued
    ensures var s := states[i];
            forall j, k :: 0 <= j < k < |s.scheduled| ==> !(s.scheduled[j].receipt == x == s.scheduled[k].receipt)
    ensures IsScheduled(states[i], x) <==> !exists r: nat :: IsPending(states[i], x, r)
    ensures forall r: nat :: IsPending(states[i], x, r) ==> x in states[i].owner && r == states[i].owner[x]
    ensures forall j :: 0 <= j < |states[i].scheduled| && states[i].scheduled[j].receipt == x
                        && states[i].scheduled[j].cause.Delivered? ==>
              x in states[i].owner && states[i].owner[x] == states[i].scheduled[j].cause.request
  {
    hide Next, Linked, Counted, IsPending, IsScheduled;
    RunInv(cfg, actions, states, i);
    var s := states[i];
    assert ReceiptTracked(s, x);
    forall r: nat | IsPending(s, x, r) ensures x in s.owner && r == s.owner[x] && !IsScheduled(s, x) {
      assert PairTracked(s, x, r);
    }
  }

  /** Some step that no caller makes is enabled. */
  ghost predicate CanGoOn(s: System) {
    exists a :: Enabled(s, a) && !a.DoDownload? && !a.DoCancel?
  }

  /** The next step of the task or the closure of a request. */
  function StepOf(s: System, r: nat): Action
    requires r in s.phases
  {
    match s.phases[r]
    case Waiting => TaskCompletes(r)
    case Fetching => DoFetch(r)
    case Removing => DoRemove(r)
    case Scheduling(_) => DoSchedule(r)
    case Decrementing => DoDecrement(r)
    case StartingNext => DoStartNext(r)
    case Finished => DoStartNext(r)
  }

  lemma {:induction false} StepEnabled(s: System, r: nat)
    requires Linked(s) && r in s.core.requests
    requires !s.core.requests[r].state.Suspended? && !s.phases[r].Finished?
    ensures CanGoOn(s)
  {
    hide HandlerLive, Registered;
    assert RequestLinked(s, r);
    assert Enabled(s, StepOf(s, r));
  }

  /** The downloader cannot get stuck: as long as some completion is outstanding, a task can
      complete or a closure has a step to take. */
  lemma {:induction false} NeverStuck(cfg: Config, actions: seq<Action>, states: seq<System>, i: nat, x: nat)
    requires cfg.max > 0 && Runs(cfg, actions, states) && i <= |actions|
    requires x in states[i].issued && !IsScheduled(states[i], x)
    ensures CanGoOn(states[i])
  {
    hide Next, Sound, IsScheduled, CanGoOn;
    RunInv(cfg, actions, states, i);
    var s := states[i];
    assert ReceiptTracked(s, x);
    var r := s.owner[x];
    if Registered(s, r) { assert HandlerLive(s, s.core.requests[r].url); }
    assert RequestLinked(s, r);
    if s.core.requests[r].state.Suspended? {
      assert IsSuspended(s.core, r);
      assert s.core.active + |Waking(s)| >= 1;
      if |Waking(s)| > 0 {
        var w :| w in Waking(s);
        assert RequestLinked(s, w);
        StepEnabled(s, w);
      } else {
        var w :| w in InFlight(s);
        StepEnabled(s, w);
      }
    } else {
      StepEnabled(s, r);
    }
  }

  /** When only callers could make a step, every download's completion has been scheduled, once. */
  lemma {:induction false} AllScheduled(cfg: Config, actions: seq<Action>, states: seq<System>, i: nat)
    requires cfg.max > 0 && Runs(cfg, actions, states) && i <= |actions| && !CanGoOn(states[i])
    ensures forall x: nat :: x in states[i].issued <==> IsScheduled(states[i], x)
    ensures |states[i].scheduled| == |states[i].issued|
  {
    hide Next, CanGoOn, Linked, Counted, Tracked;
    RunInv(cfg, actions, states, i);
    var s := states[i];
    forall x: nat ensures x in s.issued <==> IsScheduled(s, x) {
      if x in s.issued && !IsScheduled(s, x) { NeverStuck(cfg, actions, states, i, x); }
    }
    ScheduledAtMostIssued(s.scheduled, s.issued);
    IssuedAtMostScheduled(s.scheduled, s.issued);
  }

  lemma {:induction false} IssuedAtMostScheduled(cs: seq<Completion>, issued: set<nat>)
    requires forall x :: x in issued ==> exists i :: 0 <= i < |cs| && cs[i].receipt == x
    ensures |issued| <= |cs|
    decreases |cs|
  {
    if cs == [] {
      assert issued == {};
    } else {
      var n := |cs| - 1;
      var rest := issued - {cs[n].receipt};
      forall x | x in rest ensures exists i :: 0 <= i < n && cs[..n][i].receipt == x {
        var i :| 0 <= i < |cs| && cs[i].receipt == x;
        assert cs[..n][i] == cs[i];
      }
      IssuedAtMostScheduled(cs[..n], rest);
    }
  }

  // ---------- downloading ----------

  /** What a download does, over every run. If a handler is registered for its URL it joins the request
      of that, whatever the cache holds, and no request is made. Otherwise the cache answers if it may
      and does. Otherwise one request is made, and started if and only if the limit allows it. */
  lemma {:induction false} DownloadExact(cfg: Config, actions: seq<Action>, states: seq<System>, i: nat)
    requires Runs(cfg, actions, states) && i < |actions| && actions[i].DoDownload?
    ensures var s, s', a := states[i], states[i + 1], actions[i];
            if a.url in s.core.handlers then
              var r := s.core.handlers[a.url].id;
              IsPending(s', a.receipt, r) && r in s.core.requests && s.core.requests[r].url == a.url
              && s'.core.requests == s.core.requests && s'.core.queue == s.core.queue && s'.scheduled == s.scheduled
            else if a.hit then
              s'.core == s.core && s'.scheduled == s.scheduled + [Completion(a.receipt, CacheHit)]
            else
              a.id !in s.core.requests && IsPending(s', a.receipt, a.id) && s'.scheduled == s.scheduled
              && s'.core.requests
                 == s.core.requests[a.id := Request(a.url, if s.core.active < cfg.max then Running else Suspended)]
              && (a.id in s'.core.queue <==> a.id in s.core.queue || s.core.active >= cfg.max)
  {
    hide Counted, Tracked, Sound, RequestLinked;
    RunInv(cfg, actions, states, i);
    var s, a := states[i], actions[i];
    assert Enabled(s, a) && states[i + 1] == Next(cfg, s, a);
    if a.url in s.core.handlers { assert HandlerLive(s, a.url); }
  }

  // ---------- cancelling ----------

  lemma {:induction false} ScheduledGrows(cfg: Config, actions: seq<Action>, states: seq<System>, i: nat, j: nat)
    requires Runs(cfg, actions, states) && i <= j <= |actions|
    ensures states[i].scheduled <= states[j].scheduled && states[i].issued <= states[j].issued
    decreases j
  {
    hide AfterDownload, AfterCancel, AfterStartNext, AfterDecrement, Enabled;
    if i < j {
      ScheduledGrows(cfg, actions, states, i, j - 1);
      assert states[j] == Next(cfg, states[j - 1], actions[j - 1]);
    }
  }

  /** What a cancel does, over every run: it schedules the completion of its receipt if and only if
      that is still an operation of the registered handler of its own request; the handler leaves the
      table, and the request is cancelled, if and only if that is suspended and no other operation
      remains. */
  lemma {:induction false} CancelExact(cfg: Config, actions: seq<Action>, states: seq<System>, i: nat)
    requires Runs(cfg, actions, states) && i < |actions| && actions[i].DoCancel?
    ensures var s, s', x := states[i], states[i + 1], actions[i].receipt;
            x in s.owner && s.owner[x] in s.core.requests
            && (IsScheduled(s', x) && !IsScheduled(s, x) <==>
                  Registered(s, s.owner[x]) && x in s.core.handlers[s.core.requests[s.owner[x]].url].ops)
            && (s'.scheduled != s.scheduled ==> s'.scheduled == s.scheduled + [Completion(x, Cancelled)])
    ensures var s, s', x := states[i], states[i + 1], actions[i].receipt;
            var url := s.core.requests[s.owner[x]].url;
            (url in s.core.handlers && url !in s'.core.handlers <==>
               IsSuspended(s.core, s.owner[x]) && Registered(s, s.owner[x])
               && forall y :: y in s.core.handlers[url].ops ==> y == x)
            && s'.core.requests == if url in s.core.handlers && url !in s'.core.handlers
                                   then s.core.requests[s.owner[x] := Request(url, Cancelling)] else s.core.requests
  {
    hide IsScheduled, RequestLinked, HandlerLive, Without, IsPending, Counted, Sound;
    RunInv(cfg, actions, states, i);
    var s, s', x := states[i], states[i + 1], actions[i].receipt;
    assert Enabled(s, actions[i]) && s' == Next(cfg, s, actions[i]);
    var r := s.owner[x];
    var url := s.core.requests[r].url;
    CancelScheduled(cfg, s, actions[i], x);
    SuspendedRegistered(s, r);
    if url in s.core.handlers {
      var ops := s.core.handlers[url].ops;
      NothingLeft(ops, x);
      if x in ops {
        OpsPending(s, url, x);
        assert PairTracked(s, x, s.core.handlers[url].id);
      }
    }
  }

  lemma {:induction false} SuspendedRegistered(s: System, r: nat)
    requires Linked(s)
    ensures IsSuspended(s.core, r) ==> Registered(s, r)
  {
    if IsSuspended(s.core, r) { assert RequestLinked(s, r); }
  }

  lemma {:induction false} NothingLeft(ops: seq<nat>, x: nat)
    requires NoRepeats(ops)
    ensures Without(ops, x) == [] <==> forall y :: y in ops ==> y == x
  {
    hide Without;
    WithoutOnce(ops, x);
    var rest := Without(ops, x);
    if rest != [] { assert rest[0] in rest; }
  }

  /** A cancelled completion is called all the same: once only callers could make a step, it has
      been scheduled after the cancel, unless it had been scheduled before. */
  lemma {:induction false} CancelledStillCalled(cfg: Config, actions: seq<Action>, states: seq<System>, i: nat, j: nat)
    requires cfg.max > 0 && Runs(cfg, actions, states) && i < j <= |actions| && actions[i].DoCancel?
    requires !CanGoOn(states[j])
    ensures IsScheduled(states[j], actions[i].receipt)
    ensures (exists k :: |states[i].scheduled| <= k < |states[j].scheduled|
                         && states[j].scheduled[k].receipt == actions[i].receipt)
       <==> !IsScheduled(states[i], actions[i].receipt)
  {
    hide Next, CanGoOn, Linked, Counted;
    var s, t, x := states[i], states[j], actions[i].receipt;
    RunInv(cfg, actions, states, i);
    RunInv(cfg, actions, states, j);
    assert Enabled(s, actions[i]);
    ScheduledGrows(cfg, actions, states, i, j);
    AllScheduled(cfg, actions, states, j);
    assert x in t.issued;
    var k :| 0 <= k < |t.scheduled| && t.scheduled[k].receipt == x;
    if k < |s.scheduled| { assert s.scheduled[k] == t.scheduled[k]; }
    if IsScheduled(s, x) {
      var h :| 0 <= h < |s.scheduled| && s.scheduled[h].receipt == x;
      assert t.scheduled[h] == s.scheduled[h];
    }
  }

  /** The shortest such run: cancelling a request that has just been started. The completion is
      called with the cancellation, the request goes on and its handler stays, without operations,
      for later downloads of the URL to join. */
  lemma {:induction false} CancelCalls(cfg: Config, url: Url) returns (states: seq<System>)
    requires cfg.max > 0
    ensures Runs(cfg, [DoDownload(0, url, false, 0), DoCancel(0)], states)
    ensures var c := states[2].core;
            states[2].scheduled == [Completion(0, Cancelled)]
            && c.handlers == map[url := Handler(0, [])] && c.requests == map[0 := Request(url, Running)]
  {
    var actions := [DoDownload(0, url, false, 0), DoCancel(0)];
    var s1 := Next(cfg, Init(), actions[0]);
    assert s1.core.handlers == map[url := Handler(0, [0])] && s1.core.requests == map[0 := Request(url, Running)];
    assert s1.owner == map[0 := 0] && Enabled(s1, actions[1]);
    assert Without([0], 0) == [];
    states := [Init(), s1, Next(cfg, s1, actions[1])];
  }

  // ---------- the order of starts ----------

  /** The state at which request `r` is first there, if it is there at `i`. */
  function FirstSeen(states: seq<System>, i: nat, r: nat): (n: nat)
    requires i < |states|
    ensures n <= i
  {
    if i == 0 || r !in states[i - 1].core.requests then i else FirstSeen(states, i - 1, r)
  }

  /** `q` is to be started before `r`: it was made before, or with LIFO after. */
  predicate Ahead(cfg: Config, states: seq<System>, i: nat, q: nat, r: nat)
    requires i < |states|
  {
    if cfg.lifo then FirstSeen(states, i, q) > FirstSeen(states, i, r)
    else FirstSeen(states, i, q) < FirstSeen(states, i, r)
  }

  ghost predicate QueueOrdered(cfg: Config, states: seq<System>, i: nat)
    requires i < |states|
  {
    var c := states[i].core;
    (forall q :: q in c.queue ==> q in c.requests)
    && forall a, b :: 0 <= a < b < |c.queue| ==> Ahead(cfg, states, i, c.queue[a], c.queue[b])
  }

  /** A step leaves the queue alone, drops a part of its front, or adds a new request. */
  lemma {:induction false} QueueStep(cfg: Config, s: System, a: Action) returns (n: nat)
    requires Enabled(s, a)
    ensures var c, c' := s.core, Next(cfg, s, a).core;
            c.requests.Keys <= c'.requests.Keys && n <= |c.queue|
            && (c'.queue == c.queue[n..]
                || (a.DoDownload? && a.id !in c.requests && a.id in c'.requests
                    && c'.queue == if cfg.lifo then [a.id] + c.queue else c.queue + [a.id]))
  {
    hide AfterStartFirst, AfterCancel;
    n := 0;
    assert s.core.queue[0..] == s.core.queue;
    if a.DoStartNext? && s.core.active < cfg.max {
      var q, pre := StartFirstStarts(s.core);
      StartFirstKeeps(s.core);
      n := |pre| + if q.Some? then 1 else 0;
    } else if a.DoCancel? {
      CancelKeepsQueue(s.core, a.receipt, s.owner[a.receipt]);
    }
  }

  lemma {:induction false} CancelKeepsQueue(c: Core, x: nat, r: nat)
    requires r in c.requests
    ensures AfterCancel(c, x, r).queue == c.queue && AfterCancel(c, x, r).requests.Keys == c.requests.Keys
  {
    hide Without;
  }

  lemma {:induction false} QueueStaysOrdered(cfg: Config, actions: seq<Action>, states: seq<System>, i: nat)
    requires Runs(cfg, actions, states) && i <= |actions|
    ensures QueueOrdered(cfg, states, i)
    decreases i
  {
    hide Next, Enabled, FirstSeen, Ahead;
    if i > 0 {
      QueueStaysOrdered(cfg, actions, states, i - 1);
      var c, c' := states[i - 1].core, states[i].core;
      assert states[i] == Next(cfg, states[i - 1], actions[i - 1]) && Enabled(states[i - 1], actions[i - 1]);
      var n := QueueStep(cfg, states[i - 1], actions[i - 1]);
      if c'.queue == c.queue[n..] {
        DropKeepsOrder(cfg, states, i, n);
      } else {
        EnqueueKeepsOrder(cfg, states, i, actions[i - 1].id);
      }
    }
  }

  lemma {:induction false} AheadStays(cfg: Config, states: seq<System>, i: nat)
    requires 0 < i < |states| && QueueOrdered(cfg, states, i - 1)
    ensures var queue := states[i - 1].core.queue;
            forall a, b :: 0 <= a < b < |queue| ==> Ahead(cfg, states, i, queue[a], queue[b])
    ensures forall q :: q in states[i - 1].core.queue ==> FirstSeen(states, i, q) <= i - 1
  {
    var c := states[i - 1].core;
    forall q | q in c.queue ensures FirstSeen(states, i, q) == FirstSeen(states, i - 1, q) {}
    forall a, b | 0 <= a < b < |c.queue| ensures Ahead(cfg, states, i, c.queue[a], c.queue[b]) {
      assert c.queue[a] in c.queue && c.queue[b] in c.queue;
      assert Ahead(cfg, states, i - 1, c.queue[a], c.queue[b]);
    }
  }

  lemma {:induction false} DropKeepsOrder(cfg: Config, states: seq<System>, i: nat, n: nat)
    requires 0 < i < |states| && QueueOrdered(cfg, states, i - 1)
    requires var c, c' := states[i - 1].core, states[i].core;
             c.requests.Keys <= c'.requests.Keys && n <= |c.queue| && c'.queue == c.queue[n..]
    ensures QueueOrdered(cfg, states, i)
  {
    hide Ahead, FirstSeen;
    AheadStays(cfg, states, i);
  }

  lemma {:induction false} EnqueueKeepsOrder(cfg: Config, states: seq<System>, i: nat, r: nat)
    requires 0 < i < |states| && QueueOrdered(cfg, states, i - 1)
    requires var c, c' := states[i - 1].core, states[i].core;
             c.requests.Keys <= c'.requests.Keys && r !in c.requests && r in c'.requests
             && c'.queue == if cfg.lifo then [r] + c.queue else c.queue + [r]
    ensures QueueOrdered(cfg, states, i)
  {
    hide FirstSeen;
    AheadStays(cfg, states, i);
    assert FirstSeen(states, i, r) == i by { NewlySeen(states, i, r); }
    var queue, queue' := states[i - 1].core.queue, states[i].core.queue;
    forall a, b | 0 <= a < b < |queue'| ensures Ahead(cfg, states, i, queue'[a], queue'[b]) {
      var d := if cfg.lifo then 1 else 0;
      assert 0 <= a - d < |queue| ==> queue'[a] == queue[a - d] && queue[a - d] in queue;
      assert 0 <= b - d < |queue| ==> queue'[b] == queue[b - d] && queue[b - d] in queue;
      if 0 <= a - d && b - d < |queue| { assert Ahead(cfg, states, i, queue[a - d], queue[b - d]); }
    }
  }

  lemma {:induction false} NewlySeen(states: seq<System>, i: nat, r: nat)
    requires 0 < i < |states| && r !in states[i - 1].core.requests
    ensures FirstSeen(states, i, r) == i
  {
  }

  /** Requests leave the queue in order: when one of them is started, every request that is left
      waiting was made after it, or with LIFO before it. */
  lemma {:induction false} StartOrder(cfg: Config, actions: seq<Action>, states: seq<System>, i: nat, q: nat, r: nat)
    requires Runs(cfg, actions, states) && i < |actions|
    requires IsSuspended(states[i].core, q) && IsSuspended(states[i].core, r) && IsSuspended(states[i + 1].core, r)
    requires q in states[i + 1].core.requests && states[i + 1].core.requests[q].state.Running?
    ensures Ahead(cfg, states, i, q, r)
  {
    hide AfterStartFirst, FirstSeen, AfterCancel, HandlerLive, Registered;
    var s, a := states[i], actions[i];
    RunInv(cfg, actions, states, i);
    QueueStaysOrdered(cfg, actions, states, i);
    assert states[i + 1] == Next(cfg, s, a) && Enabled(s, a);
    assert RequestLinked(s, q) && RequestLinked(s, r);
    if a.DoCancel? { CancelStartsNone(s.core, a.receipt, s.owner[a.receipt], q); }
    assert a.DoStartNext? && s.core.active < cfg.max;
    var p, pre := StartFirstStarts(s.core);
    assert p == Some(q);
    var queue, rest := s.core.queue, AfterStartFirst(s.core).queue;
    assert queue[|pre|] == q && r in queue;
    var b :| 0 <= b < |queue| && queue[b] == r;
    assert b < |pre| ==> r in pre;
    assert b != |pre|;
  }

  lemma {:induction false} CancelStartsNone(c: Core, x: nat, r: nat, q: nat)
    requires r in c.requests && IsSuspended(c, q)
    ensures q in AfterCancel(c, x, r).requests && !AfterCancel(c, x, r).requests[q].state.Running?
  {
    hide Without;
  }

  // ---------- the order of completions ----------

  /** For every receipt handed out before step `i` the step that did. */
  function IssuedAt(actions: seq<Action>, i: nat): map<nat, nat>
    requires i <= |actions|
  {
    if i == 0 then map[]
    else if actions[i - 1].DoDownload? then IssuedAt(actions, i - 1)[actions[i - 1].receipt := i - 1]
    else IssuedAt(actions, i - 1)
  }

  /** `x` was handed out before `y`. */
  predicate Earlier(at: map<nat, nat>, x: nat, y: nat) {
    x in at && y in at && at[x] < at[y]
  }

  predicate InOrder(at: map<nat, nat>, ops: seq<nat>) {
    (forall x :: x in ops ==> x in at) && forall a, b :: 0 <= a < b < |ops| ==> Earlier(at, ops[a], ops[b])
  }

  /** A closure that has delivered something is past removing its handler, and what it still has to
      schedule comes later. */
  predicate ComesLater(s: System, at: map<nat, nat>, j: nat)
    requires j < |s.scheduled|
  {
    s.scheduled[j].cause.Delivered? ==>
      var r := s.scheduled[j].cause.request;
      r in s.phases && !s.phases[r].Waiting? && !s.phases[r].Fetching? && !s.phases[r].Removing?
      && (s.phases[r].Scheduling? ==>
            forall c :: 0 <= c < |s.phases[r].ops| ==> Earlier(at, s.scheduled[j].receipt, s.phases[r].ops[c]))
  }

  /** Handlers and closures hold their operations in the order of the downloads, and closures have
      delivered them in that order. */
  ghost predicate Ordered(s: System, at: map<nat, nat>) {
    && at.Keys == s.issued
    && (forall u :: u in s.core.handlers ==> InOrder(at, s.core.handlers[u].ops))
    && (forall r :: r in s.phases && s.phases[r].Scheduling? ==> InOrder(at, s.phases[r].ops))
    && (forall j :: 0 <= j < |s.scheduled| ==> ComesLater(s, at, j))
    && (forall j, k :: 0 <= j < k < |s.scheduled| && s.scheduled[j].cause.Delivered?
                       && s.scheduled[k].cause == s.scheduled[j].cause ==>
          Earlier(at, s.scheduled[j].receipt, s.scheduled[k].receipt))
  }

  lemma {:induction false} WithoutInOrder(at: map<nat, nat>, ops: seq<nat>, x: nat)
    requires InOrder(at, ops)
    ensures InOrder(at, Without(ops, x))
  {
    hide IndexOf, Earlier;
    var i := IndexOf(ops, x);
    if i < |ops| {
      var rest := ops[..i] + ops[i + 1..];
      forall a, b | 0 <= a < b < |rest| ensures Earlier(at, rest[a], rest[b]) {
        assert rest[a] == ops[if a < i then a else a + 1] && rest[b] == ops[if b < i then b else b + 1];
      }
    }
  }

  /** What a download does to handlers, closures and completions. */
  lemma {:induction false} DownloadEffect(cfg: Config, s: System, a: Action)
    requires a.DoDownload? && s.phases.Keys == s.core.requests.Keys && Enabled(s, a)
    ensures var s' := Next(cfg, s, a);
            && s'.issued == s.issued + {a.receipt}
            && (s'.scheduled == s.scheduled || s'.scheduled == s.scheduled + [Completion(a.receipt, CacheHit)])
            && (s'.phases == s.phases || (a.id !in s.phases && s'.phases == s.phases[a.id := Waiting]))
            && forall u :: u in s'.core.handlers ==>
                 s'.core.handlers[u].ops == [a.receipt]
                 || (u in s.core.handlers
                     && (s'.core.handlers[u].ops == s.core.handlers[u].ops
                         || s'.core.handlers[u].ops == s.core.handlers[u].ops + [a.receipt]))
  {
  }

  lemma {:induction false} OrderedDownload(cfg: Config, s: System, a: Action, at: map<nat, nat>, i: nat)
    requires a.DoDownload? && s.phases.Keys == s.core.requests.Keys && Ordered(s, at) && Enabled(s, a)
    requires forall x :: x in at ==> at[x] < i
    ensures Ordered(Next(cfg, s, a), at[a.receipt := i])
  {
    hide InOrder, Earlier, Next;
    var s', at' := Next(cfg, s, a), at[a.receipt := i];
    DownloadEffect(cfg, s, a);
    OneInOrder(at', a.receipt);
    forall u | u in s'.core.handlers ensures InOrder(at', s'.core.handlers[u].ops) {
      if u in s.core.handlers { LaterInOrder(at, a.receipt, i, s.core.handlers[u].ops); }
    }
    forall r | r in s'.phases && s'.phases[r].Scheduling? ensures InOrder(at', s'.phases[r].ops) {
      LaterInOrder(at, a.receipt, i, s.phases[r].ops);
    }
    StaysEarlier(at, a.receipt, i);
    forall j | 0 <= j < |s'.scheduled| ensures ComesLater(s', at', j) {
      if j < |s.scheduled| { assert ComesLater(s, at, j); }
    }
  }

  lemma {:induction false} OneInOrder(at: map<nat, nat>, x: nat)
    requires x in at
    ensures InOrder(at, [x])
  {
  }

  lemma {:induction false} LaterInOrder(at: map<nat, nat>, x: nat, i: nat, ops: seq<nat>)
    requires InOrder(at, ops) && x !in at && forall y :: y in at ==> at[y] < i
    ensures InOrder(at[x := i], ops) && InOrder(at[x := i], ops + [x])
  {
  }

  lemma {:induction false} StaysEarlier(at: map<nat, nat>, x: nat, i: nat)
    requires x !in at
    ensures forall y, z :: Earlier(at, y, z) ==> Earlier(at[x := i], y, z)
  {
  }

  lemma {:induction false} OrderedCancel(cfg: Config, s: System, a: Action, at: map<nat, nat>)
    requires a.DoCancel? && Ordered(s, at) && Enabled(s, a)
    ensures Ordered(Next(cfg, s, a), at)
  {
    hide Without, InOrder, Earlier, CancelFinds;
    var s' := Next(cfg, s, a);
    forall u | u in s'.core.handlers ensures InOrder(at, s'.core.handlers[u].ops) {
      WithoutInOrder(at, s.core.handlers[u].ops, a.receipt);
    }
    forall j | 0 <= j < |s'.scheduled| ensures ComesLater(s', at, j) {
      if j < |s.scheduled| { assert ComesLater(s, at, j); }
    }
  }

  lemma {:induction false} OrderedClosure(cfg: Config, s: System, a: Action, at: map<nat, nat>)
    requires !a.DoDownload? && !a.DoCancel? && !a.DoSchedule? && Ordered(s, at) && Enabled(s, a)
    ensures Ordered(Next(cfg, s, a), at)
  {
    hide AfterStartFirst, InOrder, Earlier;
    var s' := Next(cfg, s, a);
    StartFirstKeeps(s.core);
    forall j | 0 <= j < |s'.scheduled| ensures ComesLater(s', at, j) { assert ComesLater(s, at, j); }
  }

  lemma {:induction false} OrderedSchedule(cfg: Config, s: System, a: Action, at: map<nat, nat>)
    requires a.DoSchedule? && Ordered(s, at) && Enabled(s, a)
    ensures Ordered(Next(cfg, s, a), at)
  {
    var s', ops := Next(cfg, s, a), s.phases[a.r].ops;
    assert InOrder(at, ops);
    if ops != [] {
      assert InOrder(at, ops[1..]);
      forall j | 0 <= j < |s.scheduled| ensures s'.scheduled[j] == s.scheduled[j] {}
    }
    forall j | 0 <= j < |s'.scheduled| ensures ComesLater(s', at, j) {
      if j < |s.scheduled| { assert ComesLater(s, at, j); }
    }
    forall j, k | 0 <= j < k < |s'.scheduled| && s'.scheduled[j].cause.Delivered?
                  && s'.scheduled[k].cause == s'.scheduled[j].cause
      ensures Earlier(at, s'.scheduled[j].receipt, s'.scheduled[k].receipt)
    {
      assert ComesLater(s, at, j);
      if k == |s.scheduled| { assert Earlier(at, s.scheduled[j].receipt, ops[0]); }
    }
  }

  lemma {:induction false} RunOrdered(cfg: Config, actions: seq<Action>, states: seq<System>, i: nat)
    requires Runs(cfg, actions, states) && i <= |actions|
    ensures Ordered(states[i], IssuedAt(actions, i))
    ensures forall x :: x in IssuedAt(actions, i) ==>
              var n := IssuedAt(actions, i)[x]; n < i && actions[n].DoDownload? && actions[n].receipt == x
    decreases i
  {
    hide Next, Enabled, Ordered, Counted, Tracked, Sound;
    if i == 0 {
      assert Ordered(Init(), map[]) by { InitOrdered(); }
    } else {
      RunOrdered(cfg, actions, states, i - 1);
      RunInv(cfg, actions, states, i - 1);
      var s, a, at := states[i - 1], actions[i - 1], IssuedAt(actions, i - 1);
      assert Enabled(s, a);
      if a.DoDownload? {
        OrderedDownload(cfg, s, a, at, i - 1);
      } else if a.DoCancel? {
        OrderedCancel(cfg, s, a, at);
      } else if a.DoSchedule? {
        OrderedSchedule(cfg, s, a, at);
      } else {
        OrderedClosure(cfg, s, a, at);
      }
    }
  }

  lemma {:induction false} InitOrdered()
    ensures Ordered(Init(), map[])
  {
  }

  /** The completions that one request delivers come in the order of the downloads they belong to. */
  lemma {:induction false} DeliveredInOrder(cfg: Config, actions: seq<Action>, states: seq<System>, i: nat,
                                            j: nat, k: nat) returns (m: nat, n: nat)
    requires Runs(cfg, actions, states) && i <= |actions| && j < k < |states[i].scheduled|
    requires states[i].scheduled[j].cause.Delivered? && states[i].scheduled[j].cause == states[i].scheduled[k].cause
    ensures m < n < i && actions[m].DoDownload? && actions[n].DoDownload?
    ensures actions[m].receipt == states[i].scheduled[j].receipt && actions[n].receipt == states[i].scheduled[k].receipt
  {
    hide Next, Enabled;
    RunOrdered(cfg, actions, states, i);
    var at := IssuedAt(actions, i);
    m, n := at[states[i].scheduled[j].receipt], at[states[i].scheduled[k].receipt];
  }

  // ---------- every completion is scheduled in the end ----------

  function Rank(p: Phase): nat {
    match p
    case Waiting => 6
    case Fetching => 5
    case Removing => 4
    case Scheduling(_) => 3
    case Decrementing => 2
    case StartingNext => 1
    case Finished => 0
  }

  /** The steps all closures together still have to take, but for the scheduling of single operations. */
  ghost function Ranks(phases: map<nat, Phase>): nat {
    if phases == map[] then 0
    else
      var r :| r in phases;
      Rank(phases[r]) + Ranks(phases - {r})
  }

  lemma {:induction false} RanksSplit(phases: map<nat, Phase>, r: nat)
    requires r in phases
    ensures Ranks(phases) == Rank(phases[r]) + Ranks(phases - {r})
    decreases |phases|
  {
    var q :| q in phases && Ranks(phases) == Rank(phases[q]) + Ranks(phases - {q});
    if q != r {
      SmallerMap(phases, q);
      SmallerMap(phases, r);
      RanksSplit(phases - {q}, r);
      RanksSplit(phases - {r}, q);
      assert phases - {q} - {r} == phases - {r} - {q};
    }
  }

  lemma {:induction false} RanksUpdate(phases: map<nat, Phase>, r: nat, p: Phase)
    requires r in phases
    ensures Ranks(phases[r := p]) == Ranks(phases) - Rank(phases[r]) + Rank(p)
  {
    RanksSplit(phases, r);
    RanksSplit(phases[r := p], r);
    assert phases[r := p] - {r} == phases - {r};
  }

  /** An upper bound on the steps left before the next download. */
  ghost function StepsLeft(s: System): int {
    Ranks(s.phases) + |s.issued| - |s.scheduled|
  }

  lemma {:induction false} ScheduledAtMostIssued(cs: seq<Completion>, issued: set<nat>)
    requires forall i, j :: 0 <= i < j < |cs| ==> cs[i].receipt != cs[j].receipt
    requires forall i :: 0 <= i < |cs| ==> cs[i].receipt in issued
    ensures |cs| <= |issued|
    decreases |cs|
  {
    if cs != [] {
      var x := cs[|cs| - 1].receipt;
      ScheduledAtMostIssued(cs[..|cs| - 1], issued - {x});
    }
  }

  /** Every step but a download brings the downloader closer to the end, cancelling included. */
  lemma {:induction false} StepsDecrease(cfg: Config, s: System, a: Action)
    requires Enabled(s, a) && !a.DoDownload?
    ensures StepsLeft(Next(cfg, s, a)) <= StepsLeft(s) - (if a.DoCancel? then 0 else 1)
  {
    hide AfterStartFirst, AfterCancel, Ranks, CancelFinds;
    if !a.DoCancel? { RanksUpdate(s.phases, a.r, Next(cfg, s, a).phases[a.r]); }
  }

  /** The actions from `i` up to `j` that no caller makes. */
  function OwnSteps(actions: seq<Action>, i: nat, j: nat): nat
    requires i <= j <= |actions|
    decreases j
  {
    if i == j then 0
    else OwnSteps(actions, i, j - 1) + if actions[j - 1].DoCancel? || actions[j - 1].DoDownload? then 0 else 1
  }

  /** From any reachable state on, until the next download the downloader takes at most
      `StepsLeft` steps, however its receipts are cancelled meanwhile. */
  lemma {:induction false} RunEnds(cfg: Config, actions: seq<Action>, states: seq<System>, i: nat, j: nat)
    requires Runs(cfg, actions, states) && i <= j <= |actions|
    requires forall k :: i <= k < j ==> !actions[k].DoDownload?
    ensures OwnSteps(actions, i, j) <= StepsLeft(states[i])
    ensures OwnSteps(actions, i, j) + StepsLeft(states[j]) <= StepsLeft(states[i])
    decreases j
  {
    hide Next, StepsLeft, Inv, Enabled;
    if i < j {
      RunEnds(cfg, actions, states, i, j - 1);
      assert Enabled(states[j - 1], actions[j - 1]);
      StepsDecrease(cfg, states[j - 1], actions[j - 1]);
    }
    RunInv(cfg, actions, states, j);
    StepsBound(cfg, states[j]);
  }

  lemma {:induction false} StepsBound(cfg: Config, s: System)
    requires Inv(cfg, s)
    ensures StepsLeft(s) >= 0
  {
    hide Linked, Counted, Tracked;
    ScheduledAtMostIssued(s.scheduled, s.issued);
  }

  // ---------- the downloader object ----------

  class ResponseHandler {
    const urlID: Url
    const handlerID: nat
    var operations: seq<nat>

    constructor (urlID: Url, handlerID: nat, receiptID: nat)
      ensures this.urlID == urlID && Is() == Handler(handlerID, [receiptID])
    {
      this.urlID, this.handlerID, this.operations := urlID, handlerID, [receiptID];
    }

    function Is(): Handler
      reads this
    {
      Handler(handlerID, operations)
    }
  }

  ghost function Snapshot(m: map<Url, ResponseHandler>): map<Url, Handler>
    reads set u | u in m :: m[u]
  {
    map u | u in m :: m[u].Is()
  }

  class ImageDownloader {
    const maximumActiveDownloads: nat
    const lifo: bool
    var activeRequestCount: int
    var queuedRequests: seq<nat>
    var responseHandlers: map<Url, ResponseHandler>
    /** The requests of the session manager. */
    var session: map<nat, Request>

    ghost function Handlers(): set<object>
      reads this
    {
      set u | u in responseHandlers :: responseHandlers[u]
    }

    ghost function View(): Core
      reads this, Handlers()
    {
      Core(activeRequestCount, queuedRequests, Snapshot(responseHandlers), session)
    }

    /** No two URLs share a handler. */
    ghost predicate Valid()
      reads this, Handlers()
    {
      forall u :: u in responseHandlers ==> responseHandlers[u].urlID == u
    }

    function Settings(): Config {
      Config(maximumActiveDownloads, lifo)
    }

    constructor (maximumActiveDownloads: nat, lifo: bool)
      ensures Valid() && View() == Init().core && Settings() == Config(maximumActiveDownloads, lifo)
    {
      this.maximumActiveDownloads, this.lifo := maximumActiveDownloads, lifo;
      activeRequestCount, queuedRequests, responseHandlers, session := 0, [], map[], map[];
    }

    predicate IsActiveRequestCountBelowMaximumLimit()
      reads this
    {
      activeRequestCount < maximumActiveDownloads
    }

    method Start(r: nat)
      requires r in session
      modifies this`session, this`activeRequestCount
      ensures View() == AfterStart(old(View()), r)
    {
      session := session[r := session[r].(state := Running)];
      activeRequestCount := activeRequestCount + 1;
    }

    method Enqueue(r: nat)
      modifies this`queuedRequests
      ensures View() == AfterEnqueue(Settings(), old(View()), r)
    {
      if lifo {
        queuedRequests := [r] + queuedRequests;
      } else {
        queuedRequests := queuedRequests + [r];
      }
    }

    method Dequeue() returns (r: Option<nat>)
      modifies this`queuedRequests
      ensures old(queuedRequests) == [] ==> r == None && queuedRequests == []
      ensures old(queuedRequests) != [] ==>
                r == Some(old(queuedRequests)[0]) && queuedRequests == old(queuedRequests)[1..]
    {
      r := None;
      if queuedRequests != [] {
        r := Some(queuedRequests[0]);
        queuedRequests := queuedRequests[1..];
      }
    }

    /** The block of `download`. `hit` is the answer of the image cache, `id` a new request of the
        session. Returns the request the receipt is for, unless the cache answered. */
    method Download(receiptID: nat, url: Url, hit: bool, id: nat) returns (request: Option<nat>)
      requires Valid() && id !in session
      modifies this, Handlers()
      ensures Valid() && View() == AfterDownload(Settings(), old(View()), receiptID, url, hit, id)
      ensures request == if url in old(View()).handlers then Some(old(View()).handlers[url].id)
                         else if hit then None else Some(id)
    {
      hide AfterStart, AfterEnqueue;
      ghost var before := View();
      if url in responseHandlers {
        var handler := responseHandlers[url];
        handler.operations := handler.operations + [receiptID];
        assert Snapshot(responseHandlers) == before.handlers[url := handler.Is()];
        return Some(handler.handlerID);
      }
      if hit { return None; }
      session := session[id := Request(url, Suspended)];
      var handler := new ResponseHandler(url, id, receiptID);
      responseHandlers := responseHandlers[url := handler];
      assert Snapshot(responseHandlers) == before.handlers[url := handler.Is()];
      if IsActiveRequestCountBelowMaximumLimit() {
        Start(id);
      } else {
        Enqueue(id);
      }
      request := Some(id);
    }

    /** The block of `cancelRequest`, for the receipt that `Download` returned with request `r`.
        Tells whether a completion was scheduled with the cancellation error. */
    method CancelRequest(receiptID: nat, r: nat) returns (completes: bool)
      requires Valid() && r in session
      modifies this, Handlers()
      ensures Valid() && View() == AfterCancel(old(View()), receiptID, r)
      ensures completes <==> CancelFinds(old(View()), receiptID, r)
    {
      hide IndexOf;
      ghost var before := View();
      var url := session[r].url;
      completes := false;
      if url !in responseHandlers { return; }
      var handler := responseHandlers[url];
      var index := IndexOf(handler.operations, receiptID);
      if index < |handler.operations| {
        handler.operations := handler.operations[..index] + handler.operations[index + 1..];
        completes := true;
      }
      assert Snapshot(responseHandlers) == before.handlers[url := handler.Is()];
      if handler.operations == [] && session[r].state.Suspended? {
        session := session[r := session[r].(state := Cancelling)];
        responseHandlers := responseHandlers - {url};
        assert Snapshot(responseHandlers) == before.handlers - {url};
      }
    }

    /** `safelyFetchResponseHandler`, and the comparison of handler IDs that follows it. */
    method FetchesOwnHandler(url: Url, handlerID: nat) returns (own: bool)
      requires Valid()
      ensures own <==> url in View().handlers && View().handlers[url].id == handlerID
    {
      if url !in responseHandlers { return false; }
      own := responseHandlers[url].handlerID == handlerID;
    }

    /** `safelyRemoveResponseHandler`. */
    method SafelyRemoveResponseHandler(url: Url) returns (handler: ResponseHandler?)
      requires Valid()
      modifies this`responseHandlers
      ensures Valid() && View() == old(View()).(handlers := old(View()).handlers - {url})
      ensures handler == null <==> url !in old(responseHandlers)
      ensures handler != null ==> handler.Is() == old(View()).handlers[url]
    {
      handler := null;
      if url in responseHandlers {
        handler := responseHandlers[url];
        responseHandlers := responseHandlers - {url};
      }
      assert Snapshot(responseHandlers) == Snapshot(old(responseHandlers)) - {url};
    }

    /** `safelyDecrementActiveRequestCount`. */
    method SafelyDecrementActiveRequestCount()
      requires Valid()
      modifies this`activeRequestCount
      ensures Valid() && View() == AfterDecrement(old(View()))
    {
      if activeRequestCount > 0 {
        activeRequestCount := activeRequestCount - 1;
      }
    }

    /** `safelyStartNextRequestIfNecessary`. */
    method SafelyStartNextRequestIfNecessary()
      requires Valid()
      modifies this`activeRequestCount, this`queuedRequests, this`session
      ensures Valid() && View() == AfterStartNext(Settings(), old(View()))
    {
      if !IsActiveRequestCountBelowMaximumLimit() { return; }
      while queuedRequests != []
        invariant Valid() && session == old(session) && activeRequestCount == old(activeRequestCount)
        invariant AfterStartFirst(View()) == AfterStartFirst(old(View()))
        decreases |queuedRequests|
      {
        ghost var before := View();
        var r := Dequeue();
        assert View() == before.(queue := before.queue[1..]);
        if r.value in session && session[r.value].state.Suspended? {
          Start(r.value);
          break;
        }
      }
    }
  }

  // ---------- filters ----------

  /** An image filter; its function is applied to images that are known by number. */
  datatype Filter = Filter(identifier: string, apply: nat -> nat)

  /** The filter that stands for all filters with its identifier: the first one. */
  function FirstWith(filters: seq<Option<Filter>>, identifier: string): (k: nat)
    ensures k <= |filters|
    ensures k < |filters| ==> filters[k].Some? && filters[k].value.identifier == identifier
    ensures forall j :: 0 <= j < k ==> !(filters[j].Some? && filters[j].value.identifier == identifier)
  {
    if filters == [] || (filters[0].Some? && filters[0].value.identifier == identifier) then 0
    else 1 + FirstWith(filters[1..], identifier)
  }

  /** What the completion of operation `k` receives. */
  function Delivery(filters: seq<Option<Filter>>, image: nat, k: nat): nat
    requires k < |filters|
  {
    match filters[k]
    case None => image
    case Some(f) =>
      var j := FirstWith(filters, f.identifier);
      if j < |filters| then filters[j].value.apply(image) else image
  }

  lemma {:induction false} DeliveryAt(filters: seq<Option<Filter>>, image: nat, k: nat)
    requires k < |filters|
    ensures filters[k].None? ==> Delivery(filters, image, k) == image
    ensures filters[k].Some? ==>
              var j := FirstWith(filters, filters[k].value.identifier);
              j <= k && Delivery(filters, image, k) == filters[j].value.apply(image)
  {
  }

  /** The filters run so far: those that are the first with their identifier, each once. */
  ghost predicate RunOnce(filters: seq<Option<Filter>>, executed: seq<string>, k: nat) {
    (forall i, j :: 0 <= i < j < |executed| ==> executed[i] != executed[j])
    && (forall id :: id in executed <==> FirstWith(filters, id) < k)
  }

  lemma {:induction false} RunNext(filters: seq<Option<Filter>>, executed: seq<string>, k: nat)
    requires k < |filters| && RunOnce(filters, executed, k)
    ensures filters[k].Some? && FirstWith(filters, filters[k].value.identifier) == k ==>
              RunOnce(filters, executed + [filters[k].value.identifier], k + 1)
    ensures filters[k].None? || FirstWith(filters, filters[k].value.identifier) < k ==>
              RunOnce(filters, executed, k + 1)
  {
    hide FirstWith;
    assert forall id :: FirstWith(filters, id) == k ==> filters[k].Some? && filters[k].value.identifier == id;
  }

  /** The loop over the operations of a completed request. Filters with the same identifier are
      run once, and all their completions receive the same image. */
  method FilteredImages(filters: seq<Option<Filter>>, image: nat) returns (results: seq<nat>, executed: seq<string>)
    ensures |results| == |filters| && forall k :: 0 <= k < |filters| ==> results[k] == Delivery(filters, image, k)
    ensures RunOnce(filters, executed, |filters|)
  {
    hide FirstWith, Delivery, RunOnce;
    results, executed := [], [];
    var filteredImages: map<string, nat> := map[];
    NoneRun(filters);
    for k := 0 to |filters|
      invariant |results| == k && RunOnce(filters, executed, k)
      invariant forall i :: 0 <= i < k ==> results[i] == Delivery(filters, image, i)
      invariant forall id :: id in filteredImages <==> FirstWith(filters, id) < k
      invariant forall id :: id in filteredImages ==>
                  filteredImages[id] == filters[FirstWith(filters, id)].value.apply(image)
    {
      DeliveryAt(filters, image, k);
      RunNext(filters, executed, k);
      match filters[k] {
        case None => results := results + [image];
        case Some(f) =>
          if f.identifier in filteredImages {
            results := results + [filteredImages[f.identifier]];
          } else {
            var filtered := f.apply(image);
            results := results + [filtered];
            filteredImages := filteredImages[f.identifier := filtered];
            executed := executed + [f.identifier];
          }
      }
    }
  }

  lemma {:induction false} NoneRun(filters: seq<Option<Filter>>)
    ensures RunOnce(filters, [], 0)
  {
  }
}
