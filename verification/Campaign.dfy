/** A campaign: the scheduler starts workers, workers deliver their results to a bounded queue,
    the collector empties it. Every step of every process may come between any two others. */
module Campaign {
  import opened Wrappers

  /** A started worker process. */
  datatype Worker = Worker(index: nat, delivered: bool, alive: bool)

  /** Where the scheduler is: at the top of its loop, at entry i of its sweep, or done. */
  datatype Pc = Top | Sweep(i: nat) | Exit

  /** `lost` are the experiments whose worker died without a result; `started` in their order. */
  datatype State = State(pc: Pc, itter: nat, running: seq<Worker>, queue: seq<int>, got: seq<int>, started: seq<nat>, lost: seq<int>)

  datatype Config = Config(experiments: nat, workers: nat, depth: nat, golden: bool, config: bool)

  // ---- The collector ----

  /** Results of experiments; other messages have a negative index. */
  function CountResults(s: seq<int>): nat {
    if s == [] then 0 else CountResults(s[..|s| - 1]) + if s[|s| - 1] >= 0 then 1 else 0
  }

  /** Everything the collector waits for has come. */
  predicate Complete(c: Config, got: seq<int>) {
    CountResults(got) >= c.experiments && (c.golden ==> -1 in got && -2 in got) && (c.config ==> -3 in got)
  }

  lemma AppendMessage(s: seq<int>, x: int, y: int)
    ensures CountResults(s + [x]) == CountResults(s) + if x >= 0 then 1 else 0
    ensures CountOf(s + [x], y) == CountOf(s, y) + if x == y then 1 else 0
  {
    CountAppend(s, x, y);
    assert (s + [x])[..|s|] == s;
  }

  /** Messages that came later do not undo completeness. */
  lemma {:induction false} CompleteStays(c: Config, s: seq<int>, k: nat)
    requires k <= |s| && Complete(c, s[..k])
    ensures Complete(c, s)
    decreases |s|
  {
    if k < |s| {
      var n := |s| - 1;
      assert s[..n][..k] == s[..k];
      CompleteStays(c, s[..n], k);
      assert s == s[..n] + [s[n]];
      AppendMessage(s[..n], s[n], 0);
    } else {
      assert s[..k] == s;
    }
  }

  /** The receive loop of `hdf5collector` on the messages that arrive: it ends after the first
      of them that completes what it waits for, and not at all if that never comes. */
  method Collect(c: Config, messages: seq<int>) returns (taken: nat, ended: bool)
    ensures taken <= |messages| && (ended <==> Complete(c, messages))
    ensures ended <==> Complete(c, messages[..taken])
    ensures !ended ==> taken == |messages|
    ensures forall k :: 0 <= k < taken ==> !Complete(c, messages[..k])
  {
    var numExp: int := c.experiments;
    var logGoldenrun, logPregoldenrun, logConfig := c.golden, c.golden, c.config;
    taken := 0;
    while (numExp > 0 || logGoldenrun || logPregoldenrun || logConfig) && taken < |messages|
      invariant taken <= |messages| && numExp == c.experiments - CountResults(messages[..taken])
      invariant logGoldenrun == (c.golden && -1 !in messages[..taken])
      invariant logPregoldenrun == (c.golden && -2 !in messages[..taken])
      invariant logConfig == (c.config && -3 !in messages[..taken])
      invariant forall k :: 0 <= k < taken ==> !Complete(c, messages[..k])
    {
      var index := messages[taken];
      assert messages[..taken + 1] == messages[..taken] + [index];
      AppendMessage(messages[..taken], index, 0);
      taken := taken + 1;
      if index >= 0 {
        numExp := numExp - 1;
      } else if index == -2 && logPregoldenrun {
        logPregoldenrun := false;
      } else if index == -1 && logGoldenrun {
        logGoldenrun := false;
      } else if index == -3 && logConfig {
        logConfig := false;
      }
    }
    ended := !(numExp > 0 || logGoldenrun || logPregoldenrun || logConfig);
    if ended {
      CompleteStays(c, messages, taken);
    } else {
      assert messages[..taken] == messages;
    }
  }

  // ---- The sweep ----

  /** The list of workers without entry i. */
  function Drop(r: seq<Worker>, i: nat): (q: seq<Worker>)
    requires i < |r|
    ensures |q| == |r| - 1 && forall j :: 0 <= j < |q| ==> q[j] == r[if j < i then j else j + 1]
  {
    r[..i] + r[i + 1..]
  }

  /** Entries are removed while the list is walked by index, so the one after a removed entry is skipped. */
  function Swept(r: seq<Worker>, i: nat): seq<Worker>
    decreases |r| - i
  {
    if i >= |r| then r else if r[i].alive then Swept(r, i + 1) else Swept(Drop(r, i), i + 1)
  }

  /** Dead workers from entry i on. */
  function Dead(r: seq<Worker>, i: nat): nat
    decreases |r| - i
  {
    if i >= |r| then 0 else Dead(r, i + 1) + if r[i].alive then 0 else 1
  }

  method ReapFinished(running: seq<Worker>) returns (r: seq<Worker>)
    ensures r == Swept(running, 0)
  {
    r := running;
    var i := 0;
    while i < |r|
      invariant Swept(r, i) == Swept(running, 0)
      decreases |r| - i
    {
      if !r[i].alive { r := Drop(r, i); }
      i := i + 1;
    }
  }

  lemma {:induction false} DeadAfterDrop(r: seq<Worker>, i: nat, j: nat)
    requires i < |r| && i <= j <= |r| - 1
    ensures Dead(Drop(r, i), j) == Dead(r, j + 1)
    decreases |r| - j
  {
    if j < |r| - 1 { DeadAfterDrop(r, i, j + 1); }
  }

  /** No living worker is removed, and at most half of the dead ones are left: however the
      skipping falls, repeated sweeps remove them all. */
  lemma {:induction false} SweepHalves(r: seq<Worker>, i: nat)
    requires i <= |r|
    ensures |Swept(r, i)| >= i && |Swept(r, i)| <= |r|
    ensures 2 * Dead(Swept(r, i), i) <= Dead(r, i)
    ensures |r| - Dead(r, i) == |Swept(r, i)| - Dead(Swept(r, i), i)
    ensures forall j :: 0 <= j < i ==> Swept(r, i)[j] == r[j]
    decreases |r| - i
  {
    if i < |r| {
      if r[i].alive {
        SweepHalves(r, i + 1);
      } else {
        var d := Drop(r, i);
        DeadAfterDrop(r, i, i);
        if i < |d| {
          SweepHalves(d, i + 1);
          assert Swept(d, i + 1)[i] == d[i];
        }
      }
    }
  }

  // ---- The protocol ----

  /** The scheduler leaves, starts a worker, does not start one (memory management may hold it
      back at any time) or looks at one entry of its list; a worker delivers or ends; the collector takes a message. */
  datatype Event = Leave | StartWorker | SkipStart | SweepEntry | Deliver(k: nat) | Die(k: nat) | Take

  predicate AllDone(c: Config, s: State) {
    |s.running| == 0 && s.itter == c.experiments
  }

  predicate Enabled(c: Config, s: State, e: Event) {
    match e
    case Leave => s.pc == Top && AllDone(c, s)
    case StartWorker => s.pc == Top && !AllDone(c, s) && |s.running| < c.workers && s.itter < c.experiments && |s.queue| < c.depth
    case SkipStart => s.pc == Top && !AllDone(c, s)
    case SweepEntry => s.pc.Sweep?
    case Deliver(k) => k < |s.running| && s.running[k].alive && !s.running[k].delivered
    case Die(k) => k < |s.running| && s.running[k].alive
    case Take => s.queue != [] && !Complete(c, s.got)
  }

  function Step(c: Config, s: State, e: Event): State
    requires Enabled(c, s, e)
  {
    match e
    case Leave => s.(pc := Exit)
    case StartWorker =>
      s.(pc := Sweep(0), itter := s.itter + 1, running := s.running + [Worker(s.itter, false, true)], started := s.started + [s.itter])
    case SkipStart => s.(pc := Sweep(0))
    case SweepEntry =>
      var i := s.pc.i;
      if i >= |s.running| then s.(pc := Top)
      else if s.running[i].alive then s.(pc := Sweep(i + 1))
      else s.(pc := Sweep(i + 1), running := Drop(s.running, i))
    case Deliver(k) =>
      s.(running := s.running[k := s.running[k].(delivered := true)], queue := s.queue + [s.running[k].index])
    case Die(k) =>
      s.(running := s.running[k := s.running[k].(alive := false)],
         lost := if s.running[k].delivered then s.lost else s.lost + [s.running[k].index])
    case Take => s.(queue := s.queue[1..], got := s.got + [s.queue[0]])
  }

  /** Before the campaign the queue may hold the messages of the golden runs and the backup. */
  predicate IsStart(s: State) {
    && s.pc == Top && s.itter == 0 && s.running == [] && s.got == [] && s.started == [] && s.lost == []
    && forall m :: m in s.queue ==> m < 0
  }

  // ---- What every step keeps ----

  /** A worker that still has to deliver, of experiment x if x is not negative. */
  predicate Owes(w: Worker, x: int) {
    w.alive && !w.delivered && (x < 0 || w.index == x)
  }

  function Owed(r: seq<Worker>, x: int): nat {
    if r == [] then 0 else Owed(r[..|r| - 1], x) + if Owes(r[|r| - 1], x) then 1 else 0
  }

  const ANY := -1

  function Limit(c: Config, initial: nat): int {
    if initial > c.depth + c.workers - 1 then initial else c.depth + c.workers - 1
  }

  ghost predicate Inv(c: Config, initial: nat, s: State) {
    && |s.running| <= c.workers && s.itter <= c.experiments
    && |s.started| == s.itter && (forall k :: 0 <= k < s.itter ==> s.started[k] == k)
    && |s.queue| + Owed(s.running, ANY) <= Limit(c, initial)
    && Owed(s.running, ANY) + CountResults(s.queue) + CountResults(s.got) + |s.lost| == s.itter
    && (forall x: nat :: Accounted(s, x))
    && (s.pc == Exit ==> AllDone(c, s))
  }

  /** An experiment that was started is owed, queued, collected or lost: one of these, once. */
  ghost predicate Accounted(s: State, x: nat) {
    Owed(s.running, x) + CountOf(s.queue, x) + CountOf(s.got, x) + CountOf(s.lost, x) == if x < s.itter then 1 else 0
  }

  lemma OwedAppend(r: seq<Worker>, w: Worker, x: int)
    ensures Owed(r + [w], x) == Owed(r, x) + if Owes(w, x) then 1 else 0
  {
    assert (r + [w])[..|r|] == r;
  }

  lemma {:induction false} OwedUpdate(r: seq<Worker>, k: nat, w: Worker, x: int)
    requires k < |r|
    ensures Owed(r[k := w], x) + (if Owes(r[k], x) then 1 else 0) == Owed(r, x) + (if Owes(w, x) then 1 else 0)
  {
    var n := |r| - 1;
    if k == n {
      assert r[k := w][..n] == r[..n];
    } else {
      OwedUpdate(r[..n], k, w, x);
      assert r[k := w][..n] == r[..n][k := w];
    }
  }

  lemma {:induction false} OwedDrop(r: seq<Worker>, i: nat, x: int)
    requires i < |r|
    ensures Owed(Drop(r, i), x) + (if Owes(r[i], x) then 1 else 0) == Owed(r, x)
  {
    var n := |r| - 1;
    if i == n {
      assert Drop(r, i) == r[..n];
    } else {
      OwedDrop(r[..n], i, x);
      assert Drop(r, i)[..n - 1] == Drop(r[..n], i) && Drop(r, i)[n - 1] == r[n];
    }
  }

  lemma {:induction false} TakeFirst(s: seq<int>, x: int)
    requires s != []
    ensures CountOf(s, x) == CountOf(s[1..], x) + if s[0] == x then 1 else 0
    ensures CountResults(s) == CountResults(s[1..]) + if s[0] >= 0 then 1 else 0
  {
    var n := |s| - 1;
    if n > 0 {
      TakeFirst(s[..n], x);
      assert s[..n][1..] == s[1..][..n - 1] && s[1..][n - 1] == s[n];
    }
  }

  lemma StartKeeps(c: Config, initial: nat, s: State)
    requires Inv(c, initial, s) && Enabled(c, s, StartWorker)
    ensures Inv(c, initial, Step(c, s, StartWorker))
  {
    var r, w := Step(c, s, StartWorker), Worker(s.itter, false, true);
    OwedAppend(s.running, w, ANY);
    OwedBound(s.running);
    forall x: nat ensures Accounted(r, x) {
      assert Accounted(s, x);
      OwedAppend(s.running, w, x);
    }
  }

  lemma {:induction false} OwedBound(r: seq<Worker>)
    ensures Owed(r, ANY) <= |r|
  {
    if r != [] { OwedBound(r[..|r| - 1]); }
  }

  lemma SweepKeeps(c: Config, initial: nat, s: State)
    requires Inv(c, initial, s) && Enabled(c, s, SweepEntry)
    ensures Inv(c, initial, Step(c, s, SweepEntry))
  {
    var r, i := Step(c, s, SweepEntry), s.pc.i;
    if i < |s.running| && !s.running[i].alive { OwedDrop(s.running, i, ANY); }
    forall x: nat ensures Accounted(r, x) {
      assert Accounted(s, x);
      if i < |s.running| && !s.running[i].alive { OwedDrop(s.running, i, x); }
    }
  }

  lemma DeliverKeeps(c: Config, initial: nat, s: State, k: nat)
    requires Inv(c, initial, s) && Enabled(c, s, Deliver(k))
    ensures Inv(c, initial, Step(c, s, Deliver(k)))
  {
    var r, w := Step(c, s, Deliver(k)), s.running[k];
    OwedUpdate(s.running, k, w.(delivered := true), ANY);
    AppendMessage(s.queue, w.index, 0);
    forall x: nat ensures Accounted(r, x) {
      assert Accounted(s, x);
      OwedUpdate(s.running, k, w.(delivered := true), x);
      AppendMessage(s.queue, w.index, x);
    }
  }

  lemma DieKeeps(c: Config, initial: nat, s: State, k: nat)
    requires Inv(c, initial, s) && Enabled(c, s, Die(k))
    ensures Inv(c, initial, Step(c, s, Die(k)))
  {
    var r, w := Step(c, s, Die(k)), s.running[k];
    OwedUpdate(s.running, k, w.(alive := false), ANY);
    forall x: nat ensures Accounted(r, x) {
      assert Accounted(s, x);
      OwedUpdate(s.running, k, w.(alive := false), x);
      AppendMessage(s.lost, w.index, x);
    }
  }

  lemma TakeKeeps(c: Config, initial: nat, s: State)
    requires Inv(c, initial, s) && Enabled(c, s, Take)
    ensures Inv(c, initial, Step(c, s, Take))
  {
    var r := Step(c, s, Take);
    TakeFirst(s.queue, 0);
    AppendMessage(s.got, s.queue[0], 0);
    forall x: nat ensures Accounted(r, x) {
      assert Accounted(s, x);
      TakeFirst(s.queue, x);
      AppendMessage(s.got, s.queue[0], x);
    }
  }

  lemma StepKeeps(c: Config, initial: nat, s: State, e: Event)
    requires Inv(c, initial, s) && Enabled(c, s, e)
    ensures Inv(c, initial, Step(c, s, e))
  {
    match e
    case Leave => forall x: nat ensures Accounted(Step(c, s, e), x) { assert Accounted(s, x); }
    case StartWorker => StartKeeps(c, initial, s);
    case SkipStart => forall x: nat ensures Accounted(Step(c, s, e), x) { assert Accounted(s, x); }
    case SweepEntry => SweepKeeps(c, initial, s);
    case Deliver(k) => DeliverKeeps(c, initial, s, k);
    case Die(k) => DieKeeps(c, initial, s, k);
    case Take => TakeKeeps(c, initial, s);
  }

  // ---- Whole campaigns ----

  ghost predicate IsStep(c: Config, s: State, e: Event, r: State) {
    Enabled(c, s, e) && r == Step(c, s, e)
  }

  ghost predicate IsRun(c: Config, es: seq<Event>, ss: seq<State>) {
    && |ss| == |es| + 1 && IsStart(ss[0])
    && forall k {:trigger es[k]} :: 0 <= k < |es| ==> IsStep(c, ss[k], es[k], ss[k + 1])
  }

  lemma {:induction false} NoResults(s: seq<int>, x: nat)
    requires forall m :: m in s ==> m < 0
    ensures CountResults(s) == 0 && CountOf(s, x) == 0
  {
    if s != [] {
      var r := s[..|s| - 1];
      forall m | m in r ensures m < 0 { assert m in s; }
      assert s[|s| - 1] in s;
      NoResults(r, x);
    }
  }

  lemma StartInv(c: Config, s: State)
    requires IsStart(s)
    ensures Inv(c, |s.queue|, s)
  {
    NoResults(s.queue, 0);
    forall x: nat ensures Accounted(s, x) { NoResults(s.queue, x); }
  }

  lemma {:induction false} RunKeeps(c: Config, es: seq<Event>, ss: seq<State>, k: nat)
    requires IsRun(c, es, ss) && k <= |es|
    ensures Inv(c, |ss[0].queue|, ss[k])
  {
    hide Step, Enabled;
    if k == 0 {
      StartInv(c, ss[0]);
    } else {
      hide Inv;
      RunKeeps(c, es, ss, k - 1);
      var j := k - 1;
      assert IsStep(c, ss[j], es[j], ss[j + 1]);
      StepKeeps(c, |ss[0].queue|, ss[j], es[j]);
    }
  }

  /** In every state: the experiments were started in order and once each, no more workers run
      than allowed, and the queue with all results still owed stays within its bound. */
  lemma AlwaysBounded(c: Config, es: seq<Event>, ss: seq<State>, k: nat)
    requires IsRun(c, es, ss) && k <= |es|
    ensures var s := ss[k]; |s.running| <= c.workers && |s.started| == s.itter <= c.experiments
    ensures forall j :: 0 <= j < |ss[k].started| ==> ss[k].started[j] == j
    ensures |ss[k].queue| + Owed(ss[k].running, ANY) <= Limit(c, |ss[0].queue|)
  {
    RunKeeps(c, es, ss, k);
  }

  /** When the scheduler has left, every experiment is queued, collected or lost, and exactly one of these. */
  lemma EveryExperimentOnce(c: Config, es: seq<Event>, ss: seq<State>, k: nat, x: nat)
    requires IsRun(c, es, ss) && k <= |es| && ss[k].pc == Exit && x < c.experiments
    ensures CountOf(ss[k].queue, x) + CountOf(ss[k].got, x) + CountOf(ss[k].lost, x) == 1
  {
    RunKeeps(c, es, ss, k);
    assert Accounted(ss[k], x);
  }

  /** With the scheduler gone and the queue empty the collector has ended exactly if no worker
      died without a result and each message it awaited has arrived. */
  lemma CollectorEnds(c: Config, es: seq<Event>, ss: seq<State>, k: nat)
    requires IsRun(c, es, ss) && k <= |es| && ss[k].pc == Exit && ss[k].queue == []
    ensures Complete(c, ss[k].got)
            <==> ss[k].lost == [] && (c.golden ==> -1 in ss[k].got && -2 in ss[k].got) && (c.config ==> -3 in ss[k].got)
  {
    RunKeeps(c, es, ss, k);
  }

  /** The results of the first k events of a run, in the order in which they were delivered. */
  ghost function Delivered(c: Config, es: seq<Event>, ss: seq<State>, k: nat): seq<int>
    requires IsRun(c, es, ss) && k <= |es|
  {
    if k == 0 then []
    else
      var n := k - 1;
      assert IsStep(c, ss[n], es[n], ss[n + 1]);
      Delivered(c, es, ss, n)
      + if es[n].Deliver? then [ss[n].running[es[n].k].index] else []
  }

  /** Messages are not lost, doubled or reordered: what the collector took, and then what is
      queued, is what the queue held at the start and then the results as they were delivered. */
  lemma {:induction false} MessagesInOrder(c: Config, es: seq<Event>, ss: seq<State>, k: nat)
    requires IsRun(c, es, ss) && k <= |es|
    ensures ss[k].got + ss[k].queue == ss[0].queue + Delivered(c, es, ss, k)
  {
    hide Step;
    if k == 0 {
      assert ss[0].got + ss[0].queue == ss[0].queue + [];
    } else {
      var n := k - 1;
      MessagesInOrder(c, es, ss, n);
      assert IsStep(c, ss[n], es[n], ss[n + 1]);
      StepInOrder(c, ss[n], es[n]);
      var more := if es[n].Deliver? then [ss[n].running[es[n].k].index] else [];
      assert ss[0].queue + Delivered(c, es, ss, k) == (ss[0].queue + Delivered(c, es, ss, n)) + more;
    }
  }

  lemma StepInOrder(c: Config, s: State, e: Event)
    requires Enabled(c, s, e)
    ensures var r := Step(c, s, e); r.got + r.queue == s.got + s.queue + if e.Deliver? then [s.running[e.k].index] else []
  {
  }

  // ---- A campaign can always be brought to its end ----

  /** The events are possible one after the other and lead from s to r. */
  ghost predicate Leads(c: Config, s: State, es: seq<Event>, r: State)
    decreases |es|
  {
    if es == [] then r == s else Enabled(c, s, es[0]) && Leads(c, Step(c, s, es[0]), es[1..], r)
  }

  lemma {:induction false} LeadsOn(c: Config, s: State, es: seq<Event>, r: State, more: seq<Event>, q: State)
    requires Leads(c, s, es, r) && Leads(c, r, more, q)
    ensures Leads(c, s, es + more, q)
    decreases |es|
  {
    if es == [] {
      assert es + more == more;
    } else {
      assert (es + more)[1..] == es[1..] + more;
      LeadsOn(c, Step(c, s, es[0]), es[1..], r, more, q);
    }
  }

  lemma OneEvent(c: Config, s: State, e: Event)
    requires Enabled(c, s, e)
    ensures Leads(c, s, [e], Step(c, s, e))
  {
    assert [e][1..] == [];
  }

  /** What continues a run is a run. */
  lemma {:induction false} RunGoesOn(c: Config, es: seq<Event>, ss: seq<State>, more: seq<Event>, r: State) returns (ss': seq<State>)
    requires IsRun(c, es, ss) && Leads(c, ss[|es|], more, r)
    ensures IsRun(c, es + more, ss') && ss'[|es + more|] == r
    decreases |more|
  {
    hide Step, Enabled;
    if more == [] {
      ss' := ss;
      assert es + more == es;
    } else {
      var s := Step(c, ss[|es|], more[0]);
      var es1, ss1 := es + [more[0]], ss + [s];
      forall k | 0 <= k < |es1| ensures IsStep(c, ss1[k], es1[k], ss1[k + 1]) {
        if k < |es| { assert es1[k] == es[k] && IsStep(c, ss[k], es[k], ss[k + 1]); }
      }
      ss' := RunGoesOn(c, es1, ss1, more[1..], r);
      assert es1 + more[1..] == es + more;
    }
  }

  lemma {:induction false} LeadsKeeps(c: Config, initial: nat, s: State, es: seq<Event>, r: State)
    requires Inv(c, initial, s) && Leads(c, s, es, r)
    ensures Inv(c, initial, r)
    decreases |es|
  {
    hide Inv, Step, Enabled;
    if es != [] {
      StepKeeps(c, initial, s, es[0]);
      LeadsKeeps(c, initial, Step(c, s, es[0]), es[1..], r);
    }
  }

  /** The steps of one sweep alone do to the list of workers what `ReapFinished` does, and end at the top of the loop. */
  lemma {:induction false} SweepSteps(c: Config, s: State) returns (es: seq<Event>)
    requires s.pc.Sweep?
    ensures Leads(c, s, es, s.(pc := Top, running := Swept(s.running, s.pc.i))) && forall e :: e in es ==> e == SweepEntry
    decreases if s.pc.i < |s.running| then |s.running| - s.pc.i else 0
  {
    var p := Step(c, s, SweepEntry);
    OneEvent(c, s, SweepEntry);
    if s.pc.i >= |s.running| {
      es := [SweepEntry];
    } else {
      var rest := SweepSteps(c, p);
      es := [SweepEntry] + rest;
      LeadsOn(c, s, [SweepEntry], p, rest, p.(pc := Top, running := Swept(p.running, p.pc.i)));
    }
  }

  /** One round of the scheduler's loop, after it started a worker or not, is `ReapFinished` on the list. */
  lemma OneRound(c: Config, s: State, e: Event) returns (es: seq<Event>, r: State)
    requires Enabled(c, s, e) && (e == StartWorker || e == SkipStart)
    ensures Leads(c, s, [e] + es, r) && (forall x :: x in es ==> x == SweepEntry) && r.pc == Top
    ensures r.running == Swept(if e == StartWorker then s.running + [Worker(s.itter, false, true)] else s.running, 0)
    ensures r == s.(running := r.running, itter := r.itter, started := r.started) && r.itter == s.itter + if e == StartWorker then 1 else 0
  {
    OneEvent(c, s, e);
    es := SweepSteps(c, Step(c, s, e));
    r := Step(c, s, e).(pc := Top, running := Swept(Step(c, s, e).running, 0));
    LeadsOn(c, s, [e], Step(c, s, e), es, r);
  }

  predicate AllDead(r: seq<Worker>) {
    forall k :: 0 <= k < |r| ==> !r[k].alive
  }

  lemma {:induction false} DeadCount(r: seq<Worker>, i: nat)
    requires i <= |r|
    ensures Dead(r, i) <= |r| - i
    ensures Dead(r, i) == |r| - i <==> forall k :: i <= k < |r| ==> !r[k].alive
    decreases |r| - i
  {
    if i < |r| { DeadCount(r, i + 1); }
  }

  /** Dead workers only: repeated sweeps empty the list, and nothing else changes. */
  lemma {:induction false} SweepAll(c: Config, s: State) returns (es: seq<Event>)
    requires s.pc == Top && AllDead(s.running)
    ensures Leads(c, s, es, s.(running := []))
    ensures forall e :: e in es ==> e == SkipStart || e == SweepEntry
    decreases |s.running|
  {
    if s.running == [] {
      es := [];
    } else {
      var a := Step(c, s, SkipStart);
      OneEvent(c, s, SkipStart);
      var sweep := SweepSteps(c, a);
      var b := a.(pc := Top, running := Swept(a.running, 0));
      LeadsOn(c, s, [SkipStart], a, sweep, b);
      SweepHalves(s.running, 0);
      DeadCount(s.running, 0);
      DeadCount(b.running, 0);
      var rest := SweepAll(c, b);
      LeadsOn(c, s, [SkipStart] + sweep, b, rest, b.(running := []));
      es := [SkipStart] + sweep + rest;
    }
  }

  /** With all experiments started and all workers dead, sweeps alone let the scheduler leave. */
  lemma CanLeave(c: Config, s: State) returns (es: seq<Event>)
    requires s.pc == Top && s.itter == c.experiments && AllDead(s.running)
    ensures Leads(c, s, es, s.(running := [], pc := Exit))
    ensures forall e :: e in es ==> e == SkipStart || e == SweepEntry || e == Leave
  {
    var sweeps := SweepAll(c, s);
    var a := s.(running := []);
    OneEvent(c, a, Leave);
    LeadsOn(c, s, sweeps, a, [Leave], Step(c, a, Leave));
    es := sweeps + [Leave];
  }

  /** Where the first n workers have delivered and ended, all others as they were. */
  ghost predicate Ended(s: State, n: nat, r: State) {
    && r == s.(running := r.running, queue := r.queue) && |r.running| == |s.running| && n <= |s.running|
    && (forall k :: 0 <= k < n ==> !r.running[k].alive) && (forall k :: n <= k < |s.running| ==> r.running[k] == s.running[k])
  }

  lemma {:induction false} LetEnd(c: Config, s: State, n: nat) returns (es: seq<Event>, r: State)
    requires n <= |s.running|
    ensures Leads(c, s, es, r) && Ended(s, n, r)
  {
    if n == 0 {
      es, r := [], s;
    } else {
      var k := n - 1;
      es, r := LetEnd(c, s, k);
      if r.running[k].alive {
        if !r.running[k].delivered {
          OneEvent(c, r, Deliver(k));
          LeadsOn(c, s, es, r, [Deliver(k)], Step(c, r, Deliver(k)));
          es, r := es + [Deliver(k)], Step(c, r, Deliver(k));
        }
        OneEvent(c, r, Die(k));
        LeadsOn(c, s, es, r, [Die(k)], Step(c, r, Die(k)));
        es, r := es + [Die(k)], Step(c, r, Die(k));
      }
    }
  }

  /** The collector takes messages until it is complete or the queue is empty. */
  lemma {:induction false} TakeAll(c: Config, s: State) returns (es: seq<Event>, r: State)
    ensures Leads(c, s, es, r) && r == s.(queue := r.queue, got := r.got) && (r.queue == [] || Complete(c, r.got))
    decreases |s.queue|
  {
    if s.queue == [] || Complete(c, s.got) {
      es, r := [], s;
    } else {
      OneEvent(c, s, Take);
      var rest;
      rest, r := TakeAll(c, Step(c, s, Take));
      LeadsOn(c, s, [Take], Step(c, s, Take), rest, r);
      es := [Take] + rest;
    }
  }

  /** From the middle of a sweep, or the top, to the top without a worker, nothing lost on the way. */
  lemma ToTheTop(c: Config, s: State) returns (es: seq<Event>, r: State)
    requires s.pc != Exit
    ensures Leads(c, s, es, r) && r.pc == Top && r.running == [] && r.itter == s.itter && r.lost == s.lost
  {
    var a := s;
    es := [];
    if s.pc.Sweep? {
      es := SweepSteps(c, s);
      a := s.(pc := Top, running := Swept(s.running, s.pc.i));
    }
    var ends, b := LetEnd(c, a, |a.running|);
    LeadsOn(c, s, es, a, ends, b);
    var sweeps := SweepAll(c, b);
    r := b.(running := []);
    LeadsOn(c, s, es + ends, b, sweeps, r);
    es := es + ends + sweeps;
  }

  /** One experiment more is started. */
  lemma StartNext(c: Config, initial: nat, s: State) returns (es: seq<Event>, r: State)
    requires Inv(c, initial, s) && s.pc == Top && s.running == [] && s.itter < c.experiments && c.workers > 0 && c.depth > 0
    ensures Leads(c, s, es, r) && r.pc != Exit && r.itter == s.itter + 1 && r.lost == s.lost
  {
    var takes, a := TakeAll(c, s);
    LeadsKeeps(c, initial, s, takes, a);
    OneEvent(c, a, StartWorker);
    r := Step(c, a, StartWorker);
    LeadsOn(c, s, takes, a, [StartWorker], r);
    es := takes + [StartWorker];
  }

  /** No deadlock: whatever has happened so far, the campaign can still start all its experiments,
      and the scheduler leave, without another result lost. */
  lemma {:induction false} CanFinish(c: Config, initial: nat, s: State) returns (es: seq<Event>, r: State)
    requires Inv(c, initial, s) && CanStart(c, s)
    ensures Leads(c, s, es, r) && r.pc == Exit && r.lost == s.lost
    decreases c.experiments - s.itter
  {
    hide Inv, Leads, Step, Enabled;
    if s.pc == Exit {
      es, r := [], s;
      NoEvents(c, s);
    } else {
      var a;
      es, a := ToTheTop(c, s);
      LeadsKeeps(c, initial, s, es, a);
      WithinExperiments(c, initial, a);
      if a.itter == c.experiments {
        var leave := CanLeave(c, a);
        r := a.(running := [], pc := Exit);
        LeadsOn(c, s, es, a, leave, r);
        es := es + leave;
      } else {
        var start, b := StartNext(c, initial, a);
        LeadsKeeps(c, initial, a, start, b);
        LeadsOn(c, s, es, a, start, b);
        var rest;
        rest, r := CanFinish(c, initial, b);
        LeadsOn(c, s, es + start, b, rest, r);
        es := es + start + rest;
      }
    }
  }

  /** A worker and a place in the queue are allowed, unless no experiment is left to start. */
  predicate CanStart(c: Config, s: State) {
    s.itter == c.experiments || (c.workers > 0 && c.depth > 0)
  }

  lemma {:induction false} NeverStarts(c: Config, s: State, es: seq<Event>, r: State)
    requires Leads(c, s, es, r) && (c.workers == 0 || c.depth == 0)
    ensures r.itter == s.itter
    decreases |es|
  {
    if es != [] { NeverStarts(c, Step(c, s, es[0]), es[1..], r); }
  }

  /** From a reachable state the scheduler can leave at all exactly if it can start what is left. */
  lemma FinishesExactlyIf(c: Config, initial: nat, s: State)
    requires Inv(c, initial, s)
    ensures (exists es, r :: Leads(c, s, es, r) && r.pc == Exit) <==> CanStart(c, s)
  {
    if CanStart(c, s) {
      var es, r := CanFinish(c, initial, s);
    } else {
      forall es, r | Leads(c, s, es, r) ensures r.pc != Exit {
        NeverStarts(c, s, es, r);
        LeadsKeeps(c, initial, s, es, r);
      }
    }
  }

  lemma NoEvents(c: Config, s: State)
    ensures Leads(c, s, [], s)
  {
  }

  lemma WithinExperiments(c: Config, initial: nat, s: State)
    requires Inv(c, initial, s)
    ensures s.itter <= c.experiments
  {
  }

  /** Every run can be continued to one in which the scheduler has left and the collector has
      emptied the queue or is complete, and no further experiment was lost. */
  lemma EveryRunCanFinish(c: Config, es: seq<Event>, ss: seq<State>) returns (es': seq<Event>, ss': seq<State>)
    requires IsRun(c, es, ss) && CanStart(c, ss[|es|])
    ensures IsRun(c, es', ss') && es <= es'
    ensures var r := ss'[|es'|]; r.pc == Exit && r.lost == ss[|es|].lost && (r.queue == [] || Complete(c, r.got))
  {
    hide Inv, Leads, Step, Enabled, IsStep;
    RunKeeps(c, es, ss, |es|);
    var finish, a := CanFinish(c, |ss[0].queue|, ss[|es|]);
    var takes, r := TakeAll(c, a);
    LeadsOn(c, ss[|es|], finish, a, takes, r);
    ss' := RunGoesOn(c, es, ss, finish + takes, r);
    es' := es + (finish + takes);
  }
}
