// checkrel/newcheck.c: the list of work items shared by the main thread and
// the worker threads, guarded by a mutex, counted by a semaphore, and shut down
// by one exit item per worker. One step here is one synchronisation or list
// operation of one thread; threads interleave arbitrarily between steps.

module WorkQueue {
  import opened Bytes
  import opened Checksum

  const MAX_COUNT := 0x7000_0000
  const MAXIMUM_WAIT_OBJECTS := 64

  // The files that are queued, by their mapped contents, and the number of worker threads.
  datatype Config = Config(contents: seq<seq<Byte>>, threads: nat)
  {
    function Files(): nat {
      |contents|
    }

    // What CheckSum returns for the item of a file.
    function SumOf(f: nat): Word {
      if f < |contents| then MappedSum(contents[f]) else 0
    }
  }

  datatype Item = Generate(file: nat) | Exit

  datatype Owner = Nobody | MainThread | Thread(w: nat)

  // Where the main thread stands in queueing todo[0] (Inserted, Signalled: in having queued it). When everything is
  // queued it waits for the workers; once that wait has returned, for whatever reason, the process ends.
  datatype Main = Idle | Locked | Inserted | Signalled | Joined | Ended

  datatype Worker =
    | Waiting
    | Woken
    | Holding(item: Item)
    | Working(item: Item)
    | Summed(file: nat, sum: Word)
    | Writing(file: nat, sum: Word)
    | Written
    | Exited
    | Lost // took an entry from an empty list

  datatype Entry = Entry(file: nat, sum: Word)

  // `taken` is history: the items removed from the list so far.
  datatype State = State(
    mutex: Owner, semaphore: nat, list: seq<Item>, crit: Owner, main: Main, todo: seq<Item>,
    workers: seq<Worker>, output: seq<Entry>, taken: seq<Item>)

  datatype Step = MainStep | WorkerStep(w: nat)

  // One request per file, then one exit item per thread.
  function Program(c: Config): (p: seq<Item>)
    ensures |p| == c.Files() + c.threads
  {
    seq(c.Files(), (f: nat) => Generate(f)) + seq(c.threads, _ => Exit)
  }

  function Init(c: Config): State {
    State(Nobody, 0, [], Nobody, Idle, Program(c), seq(c.threads, _ => Waiting), [], [])
  }

  // WaitForMultipleObjects on all thread handles. With more handles than it takes it fails at once, and its result
  // is not looked at.
  predicate WaitReturns(ws: seq<Worker>) {
    |ws| > MAXIMUM_WAIT_OBJECTS || forall w :: 0 <= w < |ws| ==> ws[w] == Exited
  }

  predicate Enabled(s: State, step: Step) {
    match step
    case MainStep => (
      match s.main
      case Idle => if s.todo != [] then s.mutex == Nobody else WaitReturns(s.workers)
      case Ended => false
      case _ => true)
    case WorkerStep(w) =>
      s.main != Ended && w < |s.workers| &&
      match s.workers[w]
      case Waiting => s.mutex == Nobody && s.semaphore > 0
      case Summed(_, _) => s.crit == Nobody
      case Exited => false
      case Lost => false
      case _ => true
  }

  function Do(c: Config, s: State, step: Step): State
    requires Enabled(s, step)
  {
    match step
    case MainStep => (
      match s.main
      case Idle => if s.todo != [] then s.(mutex := MainThread, main := Locked) else s.(main := Joined)
      case Locked => if s.todo == [] then s else
        s.(list := s.list + [s.todo[0]], todo := s.todo[1..], main := Inserted)
      case Inserted =>
        s.(semaphore := if s.semaphore < MAX_COUNT then s.semaphore + 1 else s.semaphore, main := Signalled)
      case Signalled => s.(mutex := Nobody, main := Idle)
      case _ => s.(main := Ended))
    case WorkerStep(w) =>
      var t := s.(workers := s.workers[w := Next(c, s.list, s.workers[w])]);
      match s.workers[w]
      case Waiting => t.(mutex := Thread(w), semaphore := s.semaphore - 1)
      case Woken => if s.list == [] then t else t.(list := s.list[1..], taken := s.taken + [s.list[0]])
      case Holding(_) => t.(mutex := Nobody)
      case Summed(_, _) => t.(crit := Thread(w))
      case Writing(f, sum) => t.(output := s.output + [Entry(f, sum)])
      case Written => t.(crit := Nobody)
      case _ => t
  }

  // What the step makes of the worker itself.
  function Next(c: Config, list: seq<Item>, worker: Worker): Worker {
    match worker
    case Waiting => Woken
    case Woken => if list == [] then Lost else Holding(list[0])
    case Holding(item) => Working(item)
    case Working(Generate(f)) => Summed(f, c.SumOf(f))
    case Working(Exit) => Exited
    case Summed(f, sum) => Writing(f, sum)
    case Writing(_, _) => Written
    case Written => Waiting
    case Exited => Exited
    case Lost => Lost
  }

  // From s, taking these steps, each enabled when it is taken, leads to t.
  ghost predicate Leads(c: Config, s: State, steps: seq<Step>, t: State)
    decreases |steps|
  {
    if steps == [] then s == t
    else Enabled(s, steps[0]) && Leads(c, Do(c, s, steps[0]), steps[1..], t)
  }

  // Whether a worker has taken a file and not yet written its entry.
  function Holds(x: Worker, f: nat): nat {
    if x == Holding(Generate(f)) || x == Working(Generate(f)) || (x.Summed? && x.file == f)
       || (x.Writing? && x.file == f)
    then 1 else 0
  }

  function TimesHeld(ws: seq<Worker>, f: nat): nat {
    if ws == [] then 0 else TimesHeld(ws[..|ws| - 1], f) + Holds(ws[|ws| - 1], f)
  }

  function TookExit(x: Worker): nat {
    if x == Holding(Exit) || x == Working(Exit) || x == Exited then 1 else 0
  }

  function ExitsTaken(ws: seq<Worker>): nat {
    if ws == [] then 0 else ExitsTaken(ws[..|ws| - 1]) + TookExit(ws[|ws| - 1])
  }

  function TimesIn(items: seq<Item>, item: Item): nat {
    if items == [] then 0 else TimesIn(items[..|items| - 1], item) + if items[|items| - 1] == item then 1 else 0
  }

  function TimesWritten(output: seq<Entry>, f: nat): nat {
    if output == [] then 0
    else TimesWritten(output[..|output| - 1], f) + if output[|output| - 1].file == f then 1 else 0
  }

  // The main thread no longer waits.
  predicate HasReturned(s: State) {
    s.main == Joined || s.main == Ended
  }

  ghost predicate Inv(c: Config, s: State) {
    && LockInv(c, s)
    && CountInv(s)
    && ItemInv(c, s)
  }

  // Who owns the mutex and the critical section.
  ghost predicate LockInv(c: Config, s: State) {
    && |s.workers| == c.threads
    && (s.mutex == MainThread <==> s.main in {Locked, Inserted, Signalled})
    && (s.main == Locked ==> s.todo != [])
    && (HasReturned(s) ==> s.todo == [] && WaitReturns(s.workers))
    && (forall w :: 0 <= w < |s.workers| ==>
          (s.mutex == Thread(w) <==> s.workers[w].Woken? || s.workers[w].Holding?))
    && (forall w :: 0 <= w < |s.workers| ==>
          (s.crit == Thread(w) <==> s.workers[w].Writing? || s.workers[w].Written?))
    && (s.mutex.Thread? ==> s.mutex.w < |s.workers|)
    && (s.crit.Thread? ==> s.crit.w < |s.workers|)
    && s.crit != MainThread
    && (forall w :: 0 <= w < |s.workers| ==> s.workers[w] != Lost)
  }

  // The semaphore counts the list, up to an item inserted but not signalled, or signalled but not removed.
  ghost predicate CountInv(s: State) {
    |s.list| == s.semaphore
                + (if s.main == Inserted then 1 else 0)
                + (if s.mutex.Thread? && s.mutex.w < |s.workers| && s.workers[s.mutex.w] == Woken then 1 else 0)
  }

  // The list is a queue, and nothing taken from it is lost or done twice.
  ghost predicate ItemInv(c: Config, s: State) {
    && s.taken + s.list + s.todo == Program(c)
    && Accounted(s.taken, s.workers, s.output)
    && (forall w :: 0 <= w < |s.workers| ==> SumIsRight(c, s.workers[w]))
    && (forall i :: 0 <= i < |s.output| ==>
          s.output[i].sum == c.SumOf(s.output[i].file))
  }

  ghost predicate SumIsRight(c: Config, w: Worker) {
    match w
    case Summed(f, sum) => sum == c.SumOf(f)
    case Writing(f, sum) => sum == c.SumOf(f)
    case _ => true
  }

  lemma {:induction false} UpdateHeld(ws: seq<Worker>, i: nat, x: Worker, f: nat)
    requires i < |ws|
    ensures TimesHeld(ws[i := x], f) + Holds(ws[i], f) == TimesHeld(ws, f) + Holds(x, f)
  {
    var last := |ws| - 1;
    if i == last {
      assert ws[i := x][..last] == ws[..last];
    } else {
      assert ws[i := x][..last] == ws[..last][i := x];
      UpdateHeld(ws[..last], i, x, f);
    }
  }

  lemma {:induction false} UpdateExits(ws: seq<Worker>, i: nat, x: Worker)
    requires i < |ws|
    ensures ExitsTaken(ws[i := x]) + TookExit(ws[i]) == ExitsTaken(ws) + TookExit(x)
  {
    var last := |ws| - 1;
    if i == last {
      assert ws[i := x][..last] == ws[..last];
    } else {
      assert ws[i := x][..last] == ws[..last][i := x];
      UpdateExits(ws[..last], i, x);
    }
  }

  lemma InitInv(c: Config)
    ensures Inv(c, Init(c))
  {
    AllWaiting(c.threads);
    assert Init(c).taken + Init(c).list + Init(c).todo == Program(c);
  }

  lemma {:induction false} AllWaiting(n: nat)
    ensures var ws := seq(n, _ => Waiting); ExitsTaken(ws) == 0 && forall f :: TimesHeld(ws, f) == 0
  {
    if n > 0 {
      AllWaiting(n - 1);
      assert seq(n, _ => Waiting)[..n - 1] == seq(n - 1, _ => Waiting);
    }
  }

  // The semaphore's maximum leaves room for every item.
  ghost predicate Fits(c: Config) {
    c.Files() + c.threads <= MAX_COUNT
  }

  lemma MainStepKeepsLocks(c: Config, s: State)
    requires Inv(c, s) && Enabled(s, MainStep)
    ensures LockInv(c, Do(c, s, MainStep))
  {
  }

  lemma MainStepKeepsCountAndItems(c: Config, s: State)
    requires Fits(c) && Inv(c, s) && Enabled(s, MainStep)
    ensures CountInv(Do(c, s, MainStep)) && ItemInv(c, Do(c, s, MainStep))
  {
    assert |s.taken| + |s.list| + |s.todo| == |Program(c)|;
    if s.main == Locked {
      assert s.taken + (s.list + [s.todo[0]]) + s.todo[1..] == s.taken + s.list + s.todo;
    }
  }

  lemma LockStepKeepsLocks(c: Config, s: State, w: nat)
    requires Inv(c, s) && Enabled(s, WorkerStep(w))
    requires s.workers[w] == Waiting || s.workers[w] == Woken || s.workers[w].Holding?
    ensures LockInv(c, Do(c, s, WorkerStep(w)))
    ensures CountInv(Do(c, s, WorkerStep(w)))
  {
  }

  lemma WorkStepKeepsLocks(c: Config, s: State, w: nat)
    requires Inv(c, s) && Enabled(s, WorkerStep(w))
    requires !(s.workers[w] == Waiting || s.workers[w] == Woken || s.workers[w].Holding?)
    ensures LockInv(c, Do(c, s, WorkerStep(w)))
    ensures CountInv(Do(c, s, WorkerStep(w)))
  {
  }

  // Nothing taken is lost or done twice.
  ghost predicate Accounted(taken: seq<Item>, ws: seq<Worker>, output: seq<Entry>) {
    && TimesIn(taken, Exit) == ExitsTaken(ws)
    && forall f :: TimesIn(taken, Generate(f)) == TimesHeld(ws, f) + TimesWritten(output, f)
  }

  lemma TakingIsAccounted(taken: seq<Item>, ws: seq<Worker>, output: seq<Entry>, w: nat, item: Item)
    requires Accounted(taken, ws, output) && w < |ws| && ws[w] == Woken
    ensures Accounted(taken + [item], ws[w := Holding(item)], output)
  {
    assert (taken + [item])[..|taken|] == taken;
    UpdateExits(ws, w, Holding(item));
    forall f
      ensures TimesIn(taken + [item], Generate(f)) == TimesHeld(ws[w := Holding(item)], f) + TimesWritten(output, f)
    {
      UpdateHeld(ws, w, Holding(item), f);
    }
  }

  lemma WritingIsAccounted(taken: seq<Item>, ws: seq<Worker>, output: seq<Entry>, w: nat, e: Entry)
    requires Accounted(taken, ws, output) && w < |ws| && ws[w] == Writing(e.file, e.sum)
    ensures Accounted(taken, ws[w := Written], output + [e])
  {
    assert (output + [e])[..|output|] == output;
    UpdateExits(ws, w, Written);
    forall f
      ensures TimesIn(taken, Generate(f)) == TimesHeld(ws[w := Written], f) + TimesWritten(output + [e], f)
    {
      UpdateHeld(ws, w, Written, f);
    }
  }

  // Everything else a worker does leaves its item in its hands.
  lemma KeepingIsAccounted(taken: seq<Item>, ws: seq<Worker>, output: seq<Entry>, w: nat, x: Worker)
    requires Accounted(taken, ws, output) && w < |ws|
    requires TookExit(x) == TookExit(ws[w]) && forall f :: Holds(x, f) == Holds(ws[w], f)
    ensures Accounted(taken, ws[w := x], output)
  {
    UpdateExits(ws, w, x);
    forall f
      ensures TimesHeld(ws[w := x], f) == TimesHeld(ws, f)
    {
      UpdateHeld(ws, w, x, f);
    }
  }

  lemma HandsUnchanged(c: Config, list: seq<Item>, x: Worker)
    requires SumIsRight(c, x) && x != Woken && !x.Writing?
    ensures forall f :: Holds(Next(c, list, x), f) == Holds(x, f)
    ensures TookExit(Next(c, list, x)) == TookExit(x)
    ensures SumIsRight(c, Next(c, list, x))
  {
  }

  lemma WorkerStepKeepsItems(c: Config, s: State, w: nat)
    requires Inv(c, s) && Enabled(s, WorkerStep(w))
    ensures ItemInv(c, Do(c, s, WorkerStep(w)))
  {
    hide TimesIn, TimesHeld, TimesWritten, ExitsTaken, Holds, TookExit;
    var t := Do(c, s, WorkerStep(w));
    if s.workers[w] == Woken {
      TakingIsAccounted(s.taken, s.workers, s.output, w, s.list[0]);
      assert t.taken + t.list == s.taken + s.list;
    } else if s.workers[w].Writing? {
      WritingIsAccounted(s.taken, s.workers, s.output, w, Entry(s.workers[w].file, s.workers[w].sum));
    } else {
      HandsUnchanged(c, s.list, s.workers[w]);
      KeepingIsAccounted(s.taken, s.workers, s.output, w, t.workers[w]);
    }
  }

  lemma StepKeepsInv(c: Config, s: State, step: Step)
    requires Fits(c) && Inv(c, s) && Enabled(s, step)
    ensures Inv(c, Do(c, s, step))
  {
    match step
    case MainStep =>
      MainStepKeepsLocks(c, s);
      MainStepKeepsCountAndItems(c, s);
    case WorkerStep(w) =>
      if s.workers[w] == Waiting || s.workers[w] == Woken || s.workers[w].Holding? {
        LockStepKeepsLocks(c, s, w);
      } else {
        WorkStepKeepsLocks(c, s, w);
      }
      WorkerStepKeepsItems(c, s, w);
  }

  lemma {:induction false} LeadsKeepsInv(c: Config, s: State, steps: seq<Step>, t: State)
    requires Fits(c) && Inv(c, s) && Leads(c, s, steps, t)
    ensures Inv(c, t)
    decreases |steps|
  {
    if steps != [] {
      StepKeepsInv(c, s, steps[0]);
      LeadsKeepsInv(c, Do(c, s, steps[0]), steps[1..], t);
    }
  }

  // In every interleaving: the semaphore equals the length of the list whenever the mutex is free, a
  // worker about to remove an entry finds one, and entries are written by one worker at a time.
  lemma Safety(c: Config, steps: seq<Step>, s: State)
    requires Fits(c) && Leads(c, Init(c), steps, s)
    ensures s.mutex == Nobody ==> s.semaphore == |s.list|
    ensures forall w :: 0 <= w < |s.workers| && s.workers[w] == Woken ==> s.list != []
    ensures forall w :: 0 <= w < |s.workers| ==> s.workers[w] != Lost
    ensures forall v, w :: 0 <= v < w < |s.workers| ==> !s.workers[v].Writing? || !s.workers[w].Writing?
  {
    InitInv(c);
    LeadsKeepsInv(c, Init(c), steps, s);
  }

  lemma {:induction false} TimesInConcat(a: seq<Item>, b: seq<Item>, item: Item)
    ensures TimesIn(a + b, item) == TimesIn(a, item) + TimesIn(b, item)
  {
    if b == [] {
      assert a + b == a;
    } else {
      assert (a + b)[..|a + b| - 1] == a + b[..|b| - 1];
      TimesInConcat(a, b[..|b| - 1], item);
    }
  }

  lemma {:induction false} RequestsCounted(n: nat, item: Item)
    ensures TimesIn(seq(n, (f: nat) => Generate(f)), item) == if item.Generate? && item.file < n then 1 else 0
  {
    if n > 0 {
      RequestsCounted(n - 1, item);
      assert seq(n, (f: nat) => Generate(f))[..n - 1] == seq(n - 1, (f: nat) => Generate(f));
    }
  }

  lemma {:induction false} ExitsCounted(n: nat, item: Item)
    ensures TimesIn(seq(n, _ => Exit), item) == if item == Exit then n else 0
  {
    if n > 0 {
      ExitsCounted(n - 1, item);
      assert seq(n, _ => Exit)[..n - 1] == seq(n - 1, _ => Exit);
    }
  }

  lemma ProgramCounted(c: Config, item: Item)
    ensures TimesIn(Program(c), item) ==
            if item == Exit then c.threads else if item.file < c.Files() then 1 else 0
  {
    RequestsCounted(c.Files(), item);
    ExitsCounted(c.threads, item);
    TimesInConcat(seq(c.Files(), (f: nat) => Generate(f)), seq(c.threads, _ => Exit), item);
  }

  // However the run goes and however many threads there are, no file is written twice, and nothing but files is.
  lemma NoFileTwice(c: Config, steps: seq<Step>, s: State, f: nat)
    requires Fits(c) && Leads(c, Init(c), steps, s)
    ensures TimesWritten(s.output, f) <= if f < c.Files() then 1 else 0
  {
    hide MappedSum, CountInv, Leads, TimesIn, TimesWritten, TimesHeld, Program;
    InitInv(c);
    LeadsKeepsInv(c, Init(c), steps, s);
    ProgramCounted(c, Generate(f));
    TimesInConcat(s.taken, s.list + s.todo, Generate(f));
    assert s.taken + (s.list + s.todo) == s.taken + s.list + s.todo;
  }

  ghost predicate AllExited(ws: seq<Worker>) {
    forall w :: 0 <= w < |ws| ==> ws[w] == Exited
  }

  lemma {:induction false} ExitedHoldNothing(ws: seq<Worker>, f: nat)
    requires AllExited(ws)
    ensures TimesHeld(ws, f) == 0 && ExitsTaken(ws) == |ws|
  {
    if ws != [] {
      ExitedHoldNothing(ws[..|ws| - 1], f);
    }
  }

  // The list being a queue, all exit items can only have been taken after everything else.
  lemma NothingIsLeft(c: Config, s: State)
    requires c.threads > 0 && ItemInv(c, s) && TimesIn(s.taken, Exit) == c.threads
    ensures s.taken == Program(c) && s.list == [] && s.todo == []
  {
    var left := s.list + s.todo;
    assert s.taken + left == Program(c);
    assert left != [] ==> left[|left| - 1] == Program(c)[|Program(c)| - 1];
    TimesInConcat(s.taken, left, Exit);
    ProgramCounted(c, Exit);
  }

  // Once all workers have exited, every queued file was checksummed and written exactly once, and
  // as many exit items were taken as there are workers.
  lemma AllFilesWrittenOnce(c: Config, steps: seq<Step>, s: State)
    requires Fits(c) && c.threads > 0 && Leads(c, Init(c), steps, s) && AllExited(s.workers)
    ensures s.list == [] && s.todo == [] && TimesIn(s.taken, Exit) == c.threads
    ensures forall f: nat :: TimesWritten(s.output, f) == if f < c.Files() then 1 else 0
    ensures forall i :: 0 <= i < |s.output| ==>
              s.output[i].file < c.Files() && s.output[i].sum == MappedSum(c.contents[s.output[i].file])
  {
    hide MappedSum, ItemInv, CountInv, Leads;
    InitInv(c);
    LeadsKeepsInv(c, Init(c), steps, s);
    OutputIsComplete(c, s);
  }

  lemma OutputIsComplete(c: Config, s: State)
    requires c.threads > 0 && ItemInv(c, s) && |s.workers| == c.threads && AllExited(s.workers)
    ensures s.list == [] && s.todo == [] && TimesIn(s.taken, Exit) == c.threads
    ensures forall f: nat :: TimesWritten(s.output, f) == if f < c.Files() then 1 else 0
    ensures forall i :: 0 <= i < |s.output| ==>
              s.output[i].file < c.Files() && s.output[i].sum == MappedSum(c.contents[s.output[i].file])
  {
    hide MappedSum, TimesIn, TimesWritten, TimesHeld, ExitsTaken, AllExited;
    ExitedHoldNothing(s.workers, 0);
    NothingIsLeft(c, s);
    forall f: nat
      ensures TimesWritten(s.output, f) == if f < c.Files() then 1 else 0
    {
      ExitedHoldNothing(s.workers, f);
      ProgramCounted(c, Generate(f));
    }
    forall i | 0 <= i < |s.output|
      ensures s.output[i].file < c.Files()
    {
      EntryIsCounted(s.output, i);
    }
  }

  lemma {:induction false} EntryIsCounted(output: seq<Entry>, i: nat)
    requires i < |output|
    ensures TimesWritten(output, output[i].file) > 0
  {
    if i < |output| - 1 {
      EntryIsCounted(output[..|output| - 1], i);
    }
  }

  // As long as the process runs, some thread can go on.
  lemma NoDeadlock(c: Config, s: State) returns (step: Step)
    requires Fits(c) && c.threads > 0 && Inv(c, s) && s.main != Ended
    ensures Enabled(s, step)
  {
    if s.mutex == MainThread || s.main == Joined || (s.mutex == Nobody && s.todo != []) {
      step := MainStep;
    } else if s.mutex.Thread? {
      step := WorkerStep(s.mutex.w);
    } else if s.crit.Thread? {
      step := WorkerStep(s.crit.w);
    } else if w :| 0 <= w < |s.workers| && s.workers[w] != Waiting && s.workers[w] != Exited {
      step := WorkerStep(w);
    } else if w :| 0 <= w < |s.workers| && s.workers[w] == Waiting {
      assert s.list == [] ==> s.taken == Program(c);
      ProgramCounted(c, Exit);
      ExitsBounded(s.workers, w);
      step := WorkerStep(w);
    } else {
      step := MainStep;
    }
  }

  lemma {:induction false} ExitsBounded(ws: seq<Worker>, w: nat)
    requires w < |ws| && TookExit(ws[w]) == 0
    ensures ExitsTaken(ws) < |ws|
  {
    if w < |ws| - 1 {
      ExitsBounded(ws[..|ws| - 1], w);
    } else {
      ExitsAtMost(ws[..|ws| - 1]);
    }
  }

  lemma {:induction false} ExitsAtMost(ws: seq<Worker>)
    ensures ExitsTaken(ws) <= |ws|
  {
    if ws != [] {
      ExitsAtMost(ws[..|ws| - 1]);
    }
  }

  // How many steps can still follow, at most.
  function WorkerFuel(x: Worker): nat {
    match x
    case Woken => 6
    case Holding(_) => 5
    case Working(_) => 4
    case Summed(_, _) => 3
    case Writing(_, _) => 2
    case Written => 1
    case _ => 0
  }

  function WorkersFuel(ws: seq<Worker>): nat {
    if ws == [] then 0 else WorkersFuel(ws[..|ws| - 1]) + WorkerFuel(ws[|ws| - 1])
  }

  function Fuel(s: State): nat {
    12 * |s.todo| + 7 * s.semaphore + WorkersFuel(s.workers)
    + match s.main
      case Idle => 2 case Locked => 0 case Inserted => 11 case Signalled => 3 case Joined => 1 case Ended => 0
  }

  lemma {:induction false} UpdateFuel(ws: seq<Worker>, i: nat, x: Worker)
    requires i < |ws|
    ensures WorkersFuel(ws[i := x]) + WorkerFuel(ws[i]) == WorkersFuel(ws) + WorkerFuel(x)
  {
    var last := |ws| - 1;
    if i == last {
      assert ws[i := x][..last] == ws[..last];
    } else {
      assert ws[i := x][..last] == ws[..last][i := x];
      UpdateFuel(ws[..last], i, x);
    }
  }

  lemma StepBurnsFuel(c: Config, s: State, step: Step)
    requires Inv(c, s) && Enabled(s, step)
    ensures Fuel(Do(c, s, step)) < Fuel(s)
  {
    if step.WorkerStep? {
      UpdateFuel(s.workers, step.w, Next(c, s.list, s.workers[step.w]));
    }
  }

  lemma {:induction false} RunsAreShort(c: Config, s: State, steps: seq<Step>, t: State)
    requires Fits(c) && Inv(c, s) && Leads(c, s, steps, t)
    ensures |steps| <= Fuel(s)
    decreases |steps|
  {
    if steps != [] {
      StepKeepsInv(c, s, steps[0]);
      StepBurnsFuel(c, s, steps[0]);
      RunsAreShort(c, Do(c, s, steps[0]), steps[1..], t);
    }
  }

  // Whatever the scheduler does, it can do it only so long, and nothing more can happen only when the process has
  // ended.
  lemma EveryRunEnds(c: Config, steps: seq<Step>, s: State)
    requires Fits(c) && c.threads > 0 && Leads(c, Init(c), steps, s)
    ensures |steps| <= 12 * (c.Files() + c.threads) + 2
    ensures (forall step :: !Enabled(s, step)) <==> s.main == Ended
  {
    InitInv(c);
    LeadsKeepsInv(c, Init(c), steps, s);
    RunsAreShort(c, Init(c), steps, s);
    NoFuelYet(c.threads);
    if s.main != Ended {
      var step := NoDeadlock(c, s);
    }
  }

  // Every queued file was written exactly once, and nothing else was.
  ghost predicate IsComplete(c: Config, output: seq<Entry>) {
    forall f: nat :: TimesWritten(output, f) == if f < c.Files() then 1 else 0
  }

  // Whether no run ends with a file unwritten or written twice.
  ghost predicate AlwaysCompletes(c: Config) {
    forall steps, s :: Leads(c, Init(c), steps, s) && HasReturned(s) ==> IsComplete(c, s.output)
  }

  // The program does its work on every schedule exactly if the wait can wait for all its threads, or if there is
  // no work.
  lemma CompletesIffFewThreads(c: Config)
    requires Fits(c) && c.threads > 0
    ensures AlwaysCompletes(c) <==> c.threads <= MAXIMUM_WAIT_OBJECTS || c.Files() == 0
  {
    hide Leads, Inv, TimesWritten;
    if c.threads <= MAXIMUM_WAIT_OBJECTS || c.Files() == 0 {
      forall steps, s | Leads(c, Init(c), steps, s) && HasReturned(s)
        ensures IsComplete(c, s.output)
      {
        ReturnedIsComplete(c, steps, s);
      }
    } else {
      var steps, s := MayEndEarly(c);
      NothingWritten(0);
      assert !IsComplete(c, s.output);
    }
  }

  lemma NothingWritten(f: nat)
    ensures TimesWritten([], f) == 0
  {
  }

  lemma ReturnedIsComplete(c: Config, steps: seq<Step>, s: State)
    requires Fits(c) && c.threads > 0 && Leads(c, Init(c), steps, s) && HasReturned(s)
    requires c.threads <= MAXIMUM_WAIT_OBJECTS || c.Files() == 0
    ensures IsComplete(c, s.output)
  {
    hide MappedSum, ItemInv, CountInv, Leads, TimesWritten, Program;
    InitInv(c);
    LeadsKeepsInv(c, Init(c), steps, s);
    if c.threads <= MAXIMUM_WAIT_OBJECTS {
      AllFilesWrittenOnce(c, steps, s);
    } else {
      forall f: nat
        ensures TimesWritten(s.output, f) == 0
      {
        NoFileTwice(c, steps, s, f);
      }
    }
  }

  // With more threads than that the process can end before any of them has run.
  lemma MayEndEarly(c: Config) returns (steps: seq<Step>, s: State)
    requires Fits(c) && c.threads > MAXIMUM_WAIT_OBJECTS
    ensures Leads(c, Init(c), steps, s) && s.main == Ended && s.output == []
  {
    hide Leads, Do, Enabled;
    var queueing, t := QueueAll(c, Init(c));
    TwoSteps(c, t);
    var u := Do(c, Do(c, t, MainStep), MainStep);
    LeadsOn(c, Init(c), queueing, t, [MainStep, MainStep], u);
    steps, s := queueing + [MainStep, MainStep], u;
  }

  lemma TwoSteps(c: Config, t: State)
    requires t.main == Idle && t.todo == [] && |t.workers| > MAXIMUM_WAIT_OBJECTS
    ensures Enabled(t, MainStep) && Enabled(Do(c, t, MainStep), MainStep)
    ensures var u := Do(c, Do(c, t, MainStep), MainStep);
            Leads(c, t, [MainStep, MainStep], u) && u.main == Ended && u.output == t.output
  {
    var u := Do(c, t, MainStep);
    assert [MainStep, MainStep][1..] == [MainStep];
    assert Leads(c, u, [MainStep], Do(c, u, MainStep));
  }

  lemma {:induction false} LeadsOn(c: Config, s: State, a: seq<Step>, t: State, b: seq<Step>, u: State)
    requires Leads(c, s, a, t) && Leads(c, t, b, u)
    ensures Leads(c, s, a + b, u)
    decreases |a|
  {
    hide Do, Enabled;
    if a == [] {
      assert a + b == b;
    } else {
      LeadsOn(c, Do(c, s, a[0]), a[1..], t, b, u);
      assert (a + b)[1..] == a[1..] + b;
    }
  }

  // The main thread alone queues everything.
  lemma {:induction false} QueueAll(c: Config, s: State) returns (steps: seq<Step>, t: State)
    requires s.main == Idle && s.mutex == Nobody
    ensures Leads(c, s, steps, t) && t.main == Idle && t.todo == [] && t.workers == s.workers && t.output == s.output
    decreases |s.todo|
  {
    if s.todo == [] {
      steps, t := [], s;
    } else {
      var u := QueueOne(c, s);
      var rest;
      rest, t := QueueAll(c, u);
      LeadsOn(c, s, seq(4, _ => MainStep), u, rest, t);
      steps := seq(4, _ => MainStep) + rest;
    }
  }

  lemma QueueOne(c: Config, s: State) returns (t: State)
    requires s.main == Idle && s.mutex == Nobody && s.todo != []
    ensures Leads(c, s, seq(4, _ => MainStep), t)
    ensures t.main == Idle && t.mutex == Nobody && t.todo == s.todo[1..] && t.workers == s.workers
    ensures t.output == s.output
  {
    var a := Do(c, s, MainStep);
    var b := Do(c, a, MainStep);
    var d := Do(c, b, MainStep);
    t := Do(c, d, MainStep);
    assert Leads(c, d, seq(1, _ => MainStep), t);
    assert seq(2, _ => MainStep)[1..] == seq(1, _ => MainStep);
    assert Leads(c, b, seq(2, _ => MainStep), t);
    assert seq(3, _ => MainStep)[1..] == seq(2, _ => MainStep);
    assert Leads(c, a, seq(3, _ => MainStep), t);
    assert seq(4, _ => MainStep)[1..] == seq(3, _ => MainStep);
  }

  // -t 65, one file.
  lemma SixtyFiveThreadsLoseAFile() returns (steps: seq<Step>, s: State)
    ensures var c := Config([[1]], 65);
            && Leads(c, Init(c), steps, s) && s.main == Ended && TimesWritten(s.output, 0) == 0
            && forall step :: !Enabled(s, step)
  {
    hide Leads;
    steps, s := MayEndEarly(Config([[1]], 65));
  }

  lemma {:induction false} NoFuelYet(n: nat)
    ensures WorkersFuel(seq(n, _ => Waiting)) == 0
  {
    if n > 0 {
      NoFuelYet(n - 1);
      assert seq(n, _ => Waiting)[..n - 1] == seq(n - 1, _ => Waiting);
    }
  }
}
