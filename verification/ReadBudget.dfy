/** The owned-read budget: permits, the condition variable, and the one retry of a file that grew. */
module ReadBudget {
  import opened Bytes
  import Batching

  /** A file to read: its size when it was walked, and the configured limit. */
  datatype Job = Job(size: u64, limit: Option<u64>)

  /**
   * One reader of the batch. `retry` marks the second attempt; `bytes` is the largest size its owned
   * buffer reaches, charged from the moment the permit is held.
   */
  datatype Phase =
    | Ready
    | Trying(retry: bool)
    | Sleeping(retry: bool)
    | Reading(retry: bool, bytes: nat)
    | Holding(retry: bool, bytes: nat)
    | Done

  datatype Config = Config(capacity: u64, jobs: seq<Job>)

  datatype State = State(available: nat, readers: seq<Phase>, acquires: seq<nat>)

  /** What an attempt asks for; without a limit the retry asks for everything. */
  function Amount(job: Job, retry: bool): u64 {
    if !retry then job.size else if job.limit.Some? then job.limit.value else U64_MAX
  }

  function Charged(c: Config, job: Job, retry: bool): u64 {
    Min(Amount(job, retry), c.capacity)
  }

  /** Whether an attempt may fill a buffer of `bytes`; only the retry without a limit is unbounded. */
  predicate MayRead(job: Job, retry: bool, bytes: nat) {
    (retry && job.limit.None?) || bytes <= Amount(job, retry)
  }

  function Held(c: Config, job: Job, p: Phase): nat {
    if p.Reading? || p.Holding? then Charged(c, job, p.retry) else 0
  }

  function Buffer(p: Phase): nat {
    if p.Reading? || p.Holding? then p.bytes else 0
  }

  /** `notify_all`. */
  function Wake(readers: seq<Phase>): (woken: seq<Phase>)
    ensures |woken| == |readers|
  {
    seq(|readers|, k requires 0 <= k < |readers| =>
      if readers[k].Sleeping? then Trying(readers[k].retry) else readers[k])
  }

  // ---- steps ----

  function Become(s: State, i: nat, p: Phase): State
    requires i < |s.readers|
  {
    s.(readers := s.readers[i := p])
  }

  /** Dropping a permit: give the charge back and wake everyone. */
  function Release(c: Config, s: State, i: nat, p: Phase): State
    requires i < |s.readers| == |c.jobs|
  {
    State(s.available + Held(c, c.jobs[i], s.readers[i]), Wake(s.readers)[i := p], s.acquires)
  }

  /** A file over the limit is refused; a large one may be mapped; the others ask for a permit. */
  ghost predicate Begin(c: Config, s: State, i: nat, s': State)
    requires i < |s.readers| == |c.jobs|
  {
    var job := c.jobs[i];
    var over := job.limit.Some? && job.size > job.limit.value;
    && s.readers[i].Ready?
    && ((s' == Become(s, i, Done) && (over || job.size >= Batching.MMAP_MIN_BYTES))
        || (s' == Become(s, i, Trying(false)) && !over))
  }

  /** One pass of the acquire loop under the lock: take the charge, or wait. */
  ghost predicate Acquire(c: Config, s: State, i: nat, s': State)
    requires i < |s.readers| == |c.jobs| == |s.acquires|
  {
    var p, job := s.readers[i], c.jobs[i];
    && p.Trying?
    && (if s.available < Charged(c, job, p.retry) then s' == Become(s, i, Sleeping(p.retry))
        else (exists bytes: nat :: MayRead(job, p.retry, bytes) && s' == Grant(c, s, i, bytes)))
  }

  /** Reader `i` takes its charge; its buffer will reach `bytes`. */
  function Grant(c: Config, s: State, i: nat, bytes: nat): State
    requires i < |s.readers| == |c.jobs| == |s.acquires| && s.readers[i].Trying?
    requires Charged(c, c.jobs[i], s.readers[i].retry) <= s.available
  {
    var retry := s.readers[i].retry;
    State(s.available - Charged(c, c.jobs[i], retry), s.readers[i := Reading(retry, bytes)],
          s.acquires[i := s.acquires[i] + 1])
  }

  /** The read ends: with a buffer, with an error, or because the file outgrew its claim. */
  ghost predicate EndRead(c: Config, s: State, i: nat, s': State)
    requires i < |s.readers| == |c.jobs|
  {
    var p := s.readers[i];
    && p.Reading?
    && (|| s' == Become(s, i, Holding(p.retry, p.bytes))
        || s' == Release(c, s, i, Done)
        || (!p.retry && s' == Release(c, s, i, Trying(true))))
  }

  /** The buffer has been indexed and is dropped with its permit. */
  ghost predicate Drop(c: Config, s: State, i: nat, s': State)
    requires i < |s.readers| == |c.jobs|
  {
    s.readers[i].Holding? && s' == Release(c, s, i, Done)
  }

  ghost predicate Step(c: Config, s: State, i: nat, s': State) {
    && i < |s.readers| == |c.jobs| == |s.acquires|
    && (Begin(c, s, i, s') || Acquire(c, s, i, s') || EndRead(c, s, i, s') || Drop(c, s, i, s'))
  }

  /** A wait that returns though nobody notified; the acquire loop tests again. */
  ghost predicate SpuriousWake(c: Config, s: State, i: nat, s': State) {
    && i < |s.readers| == |c.jobs| == |s.acquires|
    && s.readers[i].Sleeping? && s' == Become(s, i, Trying(s.readers[i].retry))
  }

  /** A step of the program itself. */
  ghost predicate Progress(c: Config, s: State, s': State) {
    exists i :: Step(c, s, i, s')
  }

  ghost predicate Spurious(c: Config, s: State, s': State) {
    exists i :: SpuriousWake(c, s, i, s')
  }

  ghost predicate Next(c: Config, s: State, s': State) {
    Progress(c, s, s') || Spurious(c, s, s')
  }

  ghost predicate Init(c: Config, s: State) {
    && s.available == c.capacity
    && |s.readers| == |s.acquires| == |c.jobs|
    && (forall i :: 0 <= i < |s.readers| ==> s.readers[i].Ready? && s.acquires[i] == 0)
  }

  /** A run: every interleaving of the readers' steps and of spurious wake-ups. */
  ghost predicate IsRun(c: Config, run: seq<State>) {
    && run != [] && Init(c, run[0])
    && forall k :: 0 <= k < |run| - 1 ==> Next(c, run[k], run[k + 1])
  }

  // ---- sums ----

  function Sum(xs: seq<nat>): nat {
    if xs == [] then 0 else Sum(xs[..|xs| - 1]) + xs[|xs| - 1]
  }

  lemma {:induction false} SumUpdate(xs: seq<nat>, i: nat, v: nat)
    requires i < |xs|
    ensures Sum(xs[i := v]) == Sum(xs) - xs[i] + v
  {
    var n := |xs| - 1;
    if i < n {
      SumUpdate(xs[..n], i, v);
      assert xs[i := v][..n] == xs[..n][i := v];
    } else {
      assert xs[i := v][..n] == xs[..n];
    }
  }

  lemma {:induction false} SumMonotone(xs: seq<nat>, ys: seq<nat>)
    requires |xs| == |ys| && forall i :: 0 <= i < |xs| ==> xs[i] <= ys[i]
    ensures Sum(xs) <= Sum(ys)
  {
    if xs != [] {
      SumMonotone(xs[..|xs| - 1], ys[..|ys| - 1]);
    }
  }

  lemma {:induction false} SumAtMost(xs: seq<nat>, v: nat)
    requires forall i :: 0 <= i < |xs| ==> xs[i] <= v
    ensures Sum(xs) <= |xs| * v
  {
    if xs != [] {
      SumAtMost(xs[..|xs| - 1], v);
    }
  }

  lemma TwoInSum(xs: seq<nat>, i: nat, j: nat)
    requires i < |xs| && j < |xs| && i != j
    ensures xs[i] + xs[j] <= Sum(xs)
  {
    SumUpdate(xs, i, 0);
    SumUpdate(xs[i := 0], j, 0);
  }

  // ---- the invariant ----

  function Helds(c: Config, readers: seq<Phase>): (hs: seq<nat>)
    requires |readers| == |c.jobs|
    ensures |hs| == |readers|
  {
    seq(|readers|, k requires 0 <= k < |readers| => Held(c, c.jobs[k], readers[k]))
  }

  function Buffers(readers: seq<Phase>): (bs: seq<nat>)
    ensures |bs| == |readers|
  {
    seq(|readers|, k requires 0 <= k < |readers| => Buffer(readers[k]))
  }

  /** How many permits a reader in phase `p` has acquired. */
  predicate AcquiredBy(p: Phase, acquires: nat) {
    match p
    case Ready => acquires == 0
    case Trying(retry) => acquires == if retry then 1 else 0
    case Sleeping(retry) => acquires == if retry then 1 else 0
    case Reading(retry, _) => acquires == if retry then 2 else 1
    case Holding(retry, _) => acquires == if retry then 2 else 1
    case Done => acquires <= 2
  }

  ghost predicate ReaderOk(c: Config, s: State, i: nat)
    requires i < |s.readers| == |c.jobs| == |s.acquires|
  {
    var p := s.readers[i];
    && AcquiredBy(p, s.acquires[i])
    && (p.Sleeping? ==> s.available < Charged(c, c.jobs[i], p.retry))
    && (p.Reading? || p.Holding? ==> MayRead(c.jobs[i], p.retry, p.bytes))
  }

  /** Permits are conserved; sleepers have a reason to sleep; buffers stay within their claims. */
  ghost predicate Inv(c: Config, s: State) {
    && |s.readers| == |s.acquires| == |c.jobs|
    && s.available + Sum(Helds(c, s.readers)) == c.capacity
    && forall i :: 0 <= i < |s.readers| ==> ReaderOk(c, s, i)
  }

  lemma InitInv(c: Config, s: State)
    requires Init(c, s)
    ensures Inv(c, s)
  {
    SumAtMost(Helds(c, s.readers), 0);
  }

  lemma HeldsUpdate(c: Config, readers: seq<Phase>, i: nat, p: Phase)
    requires i < |readers| == |c.jobs|
    ensures Sum(Helds(c, readers[i := p]))
         == Sum(Helds(c, readers)) - Held(c, c.jobs[i], readers[i]) + Held(c, c.jobs[i], p)
  {
    assert Helds(c, readers[i := p]) == Helds(c, readers)[i := Held(c, c.jobs[i], p)];
    SumUpdate(Helds(c, readers), i, Held(c, c.jobs[i], p));
  }

  lemma HeldsWake(c: Config, readers: seq<Phase>)
    requires |readers| == |c.jobs|
    ensures Helds(c, Wake(readers)) == Helds(c, readers)
  {
  }

  lemma BecomeInv(c: Config, s: State, i: nat, p: Phase)
    requires Inv(c, s) && i < |s.readers|
    requires Held(c, c.jobs[i], p) == Held(c, c.jobs[i], s.readers[i])
    requires ReaderOk(c, Become(s, i, p), i)
    ensures Inv(c, Become(s, i, p))
  {
    HeldsUpdate(c, s.readers, i, p);
    forall k | 0 <= k < |s.readers|
      ensures ReaderOk(c, Become(s, i, p), k)
    {
      assert ReaderOk(c, s, k);
    }
  }

  lemma ReleaseInv(c: Config, s: State, i: nat, p: Phase)
    requires Inv(c, s) && i < |s.readers|
    requires Held(c, c.jobs[i], p) == 0 && !p.Sleeping? && AcquiredBy(p, s.acquires[i]) && Buffer(p) == 0
    requires !p.Reading? && !p.Holding?
    ensures Inv(c, Release(c, s, i, p))
  {
    var s' := Release(c, s, i, p);
    HeldsWake(c, s.readers);
    HeldsUpdate(c, Wake(s.readers), i, p);
    assert Wake(s.readers)[i] == s.readers[i] || Held(c, c.jobs[i], s.readers[i]) == 0;
    forall k | 0 <= k < |s'.readers|
      ensures ReaderOk(c, s', k)
    {
      assert ReaderOk(c, s, k);
    }
  }

  lemma GrantInv(c: Config, s: State, i: nat, bytes: nat)
    requires Inv(c, s) && i < |s.readers| && s.readers[i].Trying?
    requires s.available >= Charged(c, c.jobs[i], s.readers[i].retry)
    requires MayRead(c.jobs[i], s.readers[i].retry, bytes)
    ensures Inv(c, Grant(c, s, i, bytes))
  {
    var retry := s.readers[i].retry;
    var s' := Grant(c, s, i, bytes);
    HeldsUpdate(c, s.readers, i, Reading(retry, bytes));
    forall k | 0 <= k < |s'.readers|
      ensures ReaderOk(c, s', k)
    {
      assert ReaderOk(c, s, k);
    }
  }

  /** Every step keeps the invariant. */
  lemma StepInv(c: Config, s: State, i: nat, s': State)
    requires Inv(c, s) && Step(c, s, i, s')
    ensures Inv(c, s')
  {
    var p, job := s.readers[i], c.jobs[i];
    assert ReaderOk(c, s, i);
    hide Inv;
    if Begin(c, s, i, s') {
      BecomeInv(c, s, i, s'.readers[i]);
    } else if Acquire(c, s, i, s') {
      if s.available < Charged(c, job, p.retry) {
        BecomeInv(c, s, i, Sleeping(p.retry));
      } else {
        var bytes: nat :| MayRead(job, p.retry, bytes) && s' == Grant(c, s, i, bytes);
        GrantInv(c, s, i, bytes);
      }
    } else if EndRead(c, s, i, s') {
      if s' == Become(s, i, Holding(p.retry, p.bytes)) {
        BecomeInv(c, s, i, Holding(p.retry, p.bytes));
      } else {
        ReleaseInv(c, s, i, s'.readers[i]);
      }
    } else {
      ReleaseInv(c, s, i, Done);
    }
  }

  /** So does a wait that returns without being notified. */
  lemma SpuriousInv(c: Config, s: State, i: nat, s': State)
    requires Inv(c, s) && SpuriousWake(c, s, i, s')
    ensures Inv(c, s')
  {
    assert ReaderOk(c, s, i);
    BecomeInv(c, s, i, Trying(s.readers[i].retry));
  }

  lemma NextInv(c: Config, s: State, s': State)
    requires Inv(c, s) && Next(c, s, s')
    ensures Inv(c, s')
  {
    hide Inv, Step, SpuriousWake;
    if i :| Step(c, s, i, s') {
      StepInv(c, s, i, s');
    } else {
      var i :| SpuriousWake(c, s, i, s');
      SpuriousInv(c, s, i, s');
    }
  }

  /** Permits are conserved at every point of every run. */
  lemma {:induction false} RunInv(c: Config, run: seq<State>, k: nat)
    requires IsRun(c, run) && k < |run|
    ensures Inv(c, run[k])
  {
    hide Inv;
    if k == 0 {
      InitInv(c, run[0]);
    } else {
      RunInv(c, run, k - 1);
      assert Next(c, run[k - 1], run[k - 1 + 1]);
      NextInv(c, run[k - 1], run[k]);
    }
  }

  // ---- what the invariant gives ----

  /** One reader holds the whole budget and every other buffer is empty. */
  ghost predicate Exclusive(c: Config, s: State, i: nat)
    requires |s.readers| == |c.jobs|
  {
    && i < |s.readers|
    && Held(c, c.jobs[i], s.readers[i]) == c.capacity && Buffer(s.readers[i]) > 0
    && forall k :: 0 <= k < |s.readers| && k != i ==> Buffer(s.readers[k]) == 0
  }

  /**
   * Owned buffers total at most the capacity, unless a single non-empty buffer holds all of it.
   */
  lemma BuffersBounded(c: Config, s: State)
    requires Inv(c, s) && c.capacity > 0
    ensures Sum(Buffers(s.readers)) <= c.capacity || exists i :: Exclusive(c, s, i)
  {
    var helds, buffers := Helds(c, s.readers), Buffers(s.readers);
    if forall i :: 0 <= i < |buffers| ==> buffers[i] <= helds[i] {
      SumMonotone(buffers, helds);
    } else {
      var i :| 0 <= i < |buffers| && buffers[i] > helds[i];
      assert ReaderOk(c, s, i);
      assert helds[i] == c.capacity;
      forall k | 0 <= k < |s.readers| && k != i
        ensures Buffer(s.readers[k]) == 0
      {
        assert ReaderOk(c, s, k);
        TwoInSum(helds, i, k);
      }
      assert Exclusive(c, s, i);
    }
  }

  /** The capacity must be positive: with none, every charge is zero and nothing is bounded. */
  lemma ZeroBudgetBoundsNothing() returns (c: Config, run: seq<State>)
    ensures IsRun(c, run) && c.capacity == 0 && |run| == 5 && |run[4].readers| == |c.jobs|
    ensures Sum(Buffers(run[4].readers)) > c.capacity
    ensures forall i :: !Exclusive(c, run[4], i)
  {
    c := Config(0, [Job(5, None), Job(5, None)]);
    var s0 := State(0, [Ready, Ready], [0, 0]);
    var s1 := Become(s0, 0, Trying(false));
    var s2 := Become(s1, 1, Trying(false));
    var s3 := Grant(c, s2, 0, 5);
    var s4 := Grant(c, s3, 1, 5);
    assert Step(c, s0, 0, s1) && Step(c, s1, 1, s2);
    assert MayRead(c.jobs[0], false, 5) && MayRead(c.jobs[1], false, 5);
    assert Step(c, s2, 0, s3) && Step(c, s3, 1, s4);
    run := [s0, s1, s2, s3, s4];
    assert s4.readers == [Reading(false, 5), Reading(false, 5)];
    TwoInSum(Buffers(s4.readers), 0, 1);
    assert Buffer(s4.readers[0]) == 5 && Buffer(s4.readers[1]) == 5;
  }

  ghost predicate Finished(s: State) {
    forall i :: 0 <= i < |s.readers| ==> s.readers[i].Done?
  }

  /** No deadlock and no lost wake-up: while a reader is unfinished, some reader can step without a spurious one. */
  lemma SomeoneCanStep(c: Config, s: State)
    requires Inv(c, s) && !Finished(s)
    ensures exists s' :: Progress(c, s, s')
  {
    if i :| 0 <= i < |s.readers| && !s.readers[i].Done? && !s.readers[i].Sleeping? {
      ReaderCanStep(c, s, i);
    } else {
      var i :| 0 <= i < |s.readers| && !s.readers[i].Done?;
      assert ReaderOk(c, s, i);
      SumAtMost(Helds(c, s.readers), 0);
      assert false;
    }
  }

  lemma ReaderCanStep(c: Config, s: State, i: nat)
    requires Inv(c, s) && i < |s.readers| && !s.readers[i].Done? && !s.readers[i].Sleeping?
    ensures exists s' :: Progress(c, s, s')
  {
    var p, job := s.readers[i], c.jobs[i];
    var s' :=
      if p.Ready? then
        Become(s, i, if job.limit.Some? && job.size > job.limit.value then Done else Trying(false))
      else if p.Trying? then
        if s.available < Charged(c, job, p.retry) then Become(s, i, Sleeping(p.retry)) else Grant(c, s, i, 0)
      else if p.Reading? then Become(s, i, Holding(p.retry, p.bytes))
      else Release(c, s, i, Done);
    assert p.Trying? ==> MayRead(job, p.retry, 0);
    assert Step(c, s, i, s');
    assert Progress(c, s, s');
  }

  /** Every reader acquires at most twice. */
  lemma AtMostTwoAcquires(c: Config, s: State, i: nat)
    requires Inv(c, s) && i < |s.readers|
    ensures s.acquires[i] <= 2
  {
    assert ReaderOk(c, s, i);
  }

  // ---- what readers do ----

  /** The file is larger than the configured limit. */
  predicate TooLarge(job: Job) {
    job.limit.Some? && job.size > job.limit.value
  }

  /**
   * What holds of every reader: one whose file is too large never asks for a permit, no buffer outgrows
   * the limit, the first attempt reads at most the size the file had, and a file below 1 MiB within the
   * limit is not done without a permit.
   */
  ghost predicate ReaderMeans(job: Job, p: Phase, acquires: nat) {
    && (TooLarge(job) ==> (p.Ready? || p.Done?) && acquires == 0)
    && (job.limit.Some? ==> Buffer(p) <= job.limit.value)
    && ((p.Reading? || p.Holding?) && !p.retry ==> Buffer(p) <= job.size)
    && (p.Done? && !TooLarge(job) && job.size < 1048576 ==> acquires >= 1)
  }

  ghost predicate ReadersMean(c: Config, s: State) {
    && |s.readers| == |s.acquires| == |c.jobs|
    && forall i :: 0 <= i < |s.readers| ==> ReaderMeans(c.jobs[i], s.readers[i], s.acquires[i])
  }

  lemma StepMeans(c: Config, s: State, s': State)
    requires Inv(c, s) && Next(c, s, s') && ReadersMean(c, s)
    ensures ReadersMean(c, s')
  {
    hide Inv, Step, SpuriousWake;
    if i :| Step(c, s, i, s') {
      ReaderStepMeans(c, s, i, s');
    } else {
      var i :| SpuriousWake(c, s, i, s');
      WakeMeans(c, s, i, s');
    }
  }

  lemma WakeMeans(c: Config, s: State, i: nat, s': State)
    requires SpuriousWake(c, s, i, s') && ReadersMean(c, s)
    ensures ReadersMean(c, s')
  {
  }

  lemma ReaderStepMeans(c: Config, s: State, i: nat, s': State)
    requires Inv(c, s) && Step(c, s, i, s') && ReadersMean(c, s)
    ensures ReadersMean(c, s')
  {
    assert ReaderOk(c, s, i);
    assert ReaderMeans(c.jobs[i], s.readers[i], s.acquires[i]);
    OthersKeep(c, s, i, s');
    forall k | 0 <= k < |s'.readers|
      ensures ReaderMeans(c.jobs[k], s'.readers[k], s'.acquires[k])
    {
      assert ReaderMeans(c.jobs[k], s.readers[k], s.acquires[k]);
    }
  }

  /** A step of one reader at most wakes the others. */
  lemma OthersKeep(c: Config, s: State, i: nat, s': State)
    requires Step(c, s, i, s')
    ensures |s'.readers| == |s'.acquires| == |s.readers|
    ensures forall k :: 0 <= k < |s.readers| && k != i ==>
              && s'.acquires[k] == s.acquires[k]
              && (s'.readers[k] == s.readers[k] || (s.readers[k].Sleeping? && s'.readers[k] == Trying(s.readers[k].retry)))
  {
  }

  /** At every point of every run. */
  lemma {:induction false} RunMeans(c: Config, run: seq<State>, k: nat)
    requires IsRun(c, run) && k < |run|
    ensures ReadersMean(c, run[k])
  {
    hide Inv, ReadersMean;
    if k == 0 {
      InitMeans(c, run[0]);
    } else {
      RunMeans(c, run, k - 1);
      RunInv(c, run, k - 1);
      assert Next(c, run[k - 1], run[k - 1 + 1]);
      StepMeans(c, run[k - 1], run[k]);
    }
  }

  lemma InitMeans(c: Config, s: State)
    requires Init(c, s)
    ensures ReadersMean(c, s)
  {
  }

  /**
   * An attempt waits exactly while less is available than it asks for, or than the whole budget: the size
   * of the file first, then the limit, or everything when there is none.
   */
  lemma WaitsExactlyWhenShort(c: Config, s: State, i: nat)
    requires i < |s.readers| == |c.jobs| == |s.acquires| && s.readers[i].Trying?
    ensures var job, retry := c.jobs[i], s.readers[i].retry;
            var asked := if !retry then job.size else if job.limit.Some? then job.limit.value else U64_MAX;
            var granted := asked <= s.available || c.capacity <= s.available;
            && (granted <==> exists s' :: Step(c, s, i, s') && s'.readers[i].Reading?)
            && (!granted <==> exists s' :: Step(c, s, i, s') && s'.readers[i].Sleeping?)
            && forall s' :: Step(c, s, i, s') && s'.readers[i].Reading? ==>
                 s'.available == s.available - (if asked <= c.capacity then asked else c.capacity)
  {
    var job, retry := c.jobs[i], s.readers[i].retry;
    var s' := if s.available < Charged(c, job, retry) then Become(s, i, Sleeping(retry)) else Grant(c, s, i, 0);
    assert MayRead(job, retry, 0);
    assert Step(c, s, i, s');
  }

  /** A reader can get from where it is to phase `q` in one step of its own. */
  ghost predicate CanBecome(c: Config, s: State, i: nat, q: Phase) {
    exists s' :: Step(c, s, i, s') && i < |s'.readers| && s'.readers[i] == q
  }

  /**
   * A file is refused when too large and mapped only from 1 MiB on; a read fills its buffer, fails, or,
   * the first time, starts over with its permit given back; a buffer is dropped in the end.
   */
  lemma WhatReadersBecome(c: Config, s: State, i: nat, q: Phase)
    requires i < |s.readers| == |c.jobs| == |s.acquires|
    ensures s.readers[i].Ready? ==>
              (CanBecome(c, s, i, q) <==> || (q.Done? && (TooLarge(c.jobs[i]) || c.jobs[i].size >= 1048576))
                                          || (q == Trying(false) && !TooLarge(c.jobs[i])))
    ensures s.readers[i].Reading? ==>
              (CanBecome(c, s, i, q) <==> || q.Done? || q == Holding(s.readers[i].retry, s.readers[i].bytes)
                                          || (q == Trying(true) && !s.readers[i].retry))
    ensures s.readers[i].Holding? ==> (CanBecome(c, s, i, q) <==> q.Done?)
    ensures s.readers[i].Done? || s.readers[i].Sleeping? ==> !CanBecome(c, s, i, q)
  {
    var p, job := s.readers[i], c.jobs[i];
    if p.Ready? && ((q.Done? && (TooLarge(job) || job.size >= 1048576)) || (q == Trying(false) && !TooLarge(job))) {
      assert Step(c, s, i, Become(s, i, q));
    } else if p.Reading? && q == Holding(p.retry, p.bytes) {
      assert Step(c, s, i, Become(s, i, q));
    } else if p.Reading? && (q.Done? || (q == Trying(true) && !p.retry)) {
      assert Step(c, s, i, Release(c, s, i, q));
    } else if p.Holding? && q.Done? {
      assert Step(c, s, i, Release(c, s, i, q));
    }
  }

  // ---- every run ends ----

  function Rank(p: Phase): nat {
    match p
    case Ready => 6
    case Trying(retry) => if retry then 3 else 5
    case Sleeping(retry) => if retry then 3 else 5
    case Reading(retry, _) => if retry then 2 else 4
    case Holding(_, _) => 1
    case Done => 0
  }

  function Awake(p: Phase): nat { if p.Trying? then 1 else 0 }

  function Ranks(readers: seq<Phase>): (rs: seq<nat>)
    ensures |rs| == |readers|
  {
    seq(|readers|, k requires 0 <= k < |readers| => Rank(readers[k]))
  }

  function Awakes(readers: seq<Phase>): (ws: seq<nat>)
    ensures |ws| == |readers|
  {
    seq(|readers|, k requires 0 <= k < |readers| => Awake(readers[k]))
  }

  /** Every step lowers some rank, or puts a reader to sleep. */
  function Measure(readers: seq<Phase>): nat {
    (|readers| + 1) * Sum(Ranks(readers)) + Sum(Awakes(readers))
  }

  lemma BecomeMeasure(readers: seq<Phase>, i: nat, p: Phase)
    requires i < |readers|
    requires Rank(p) < Rank(readers[i]) || (Rank(p) == Rank(readers[i]) && Awake(p) < Awake(readers[i]))
    ensures Measure(readers[i := p]) < Measure(readers)
  {
    assert Ranks(readers[i := p]) == Ranks(readers)[i := Rank(p)];
    assert Awakes(readers[i := p]) == Awakes(readers)[i := Awake(p)];
    SumUpdate(Ranks(readers), i, Rank(p));
    SumUpdate(Awakes(readers), i, Awake(p));
    if Rank(p) < Rank(readers[i]) {
      RankDominates(|readers|, Sum(Ranks(readers)), Sum(Ranks(readers[i := p])));
    }
  }

  lemma RankDominates(n: nat, before: nat, after: nat)
    requires after < before
    ensures (n + 1) * after + n < (n + 1) * before
  {
    assert (n + 1) * after + (n + 1) == (n + 1) * (after + 1);
    MulMonotone(n + 1, after + 1, before);
  }

  lemma MulMonotone(k: nat, a: nat, b: nat)
    requires a <= b
    ensures k * a <= k * b
  {
  }

  lemma ReleaseMeasure(readers: seq<Phase>, i: nat, p: Phase)
    requires i < |readers| && Rank(p) < Rank(readers[i])
    ensures Measure(Wake(readers)[i := p]) < Measure(readers)
  {
    var after := Wake(readers)[i := p];
    assert Ranks(after) == Ranks(readers)[i := Rank(p)];
    SumUpdate(Ranks(readers), i, Rank(p));
    SumAtMost(Awakes(after), 1);
    RankDominates(|readers|, Sum(Ranks(readers)), Sum(Ranks(after)));
  }

  lemma StepLowersMeasure(c: Config, s: State, i: nat, s': State)
    requires Step(c, s, i, s')
    ensures Measure(s'.readers) < Measure(s.readers) && |s'.readers| == |s.readers|
  {
    hide Measure;
    var p, q := s.readers[i], s'.readers[i];
    if Begin(c, s, i, s') || Acquire(c, s, i, s') {
      BecomeMeasure(s.readers, i, q);
    } else if EndRead(c, s, i, s') && s' == Become(s, i, Holding(p.retry, p.bytes)) {
      BecomeMeasure(s.readers, i, q);
    } else {
      ReleaseMeasure(s.readers, i, q);
    }
  }

  /** A spurious wake-up costs one more pass of the loop. */
  lemma SpuriousRaisesMeasure(c: Config, s: State, i: nat, s': State)
    requires SpuriousWake(c, s, i, s')
    ensures Measure(s'.readers) == Measure(s.readers) + 1
  {
    var p := s'.readers[i];
    assert Ranks(s'.readers) == Ranks(s.readers);
    assert Awakes(s'.readers) == Awakes(s.readers)[i := 1];
    SumUpdate(Awakes(s.readers), i, 1);
  }

  /** How many steps of a run are spurious wake-ups. */
  ghost function SpuriousIn(c: Config, run: seq<State>): nat {
    var n := |run| - 1;
    if n <= 0 then 0
    else SpuriousIn(c, run[..n]) + if Progress(c, run[n - 1], run[n]) then 0 else 1
  }

  /**
   * Under every schedule a run of `n` readers has at most `n * (6 * n + 7)` steps, and two more for
   * every spurious wake-up: the wake-up itself and going back to sleep.
   */
  lemma {:induction false} RunsAreShort(c: Config, run: seq<State>)
    requires IsRun(c, run)
    ensures |run| - 1 <= |c.jobs| * (6 * |c.jobs| + 7) + 2 * SpuriousIn(c, run)
  {
    hide Measure;
    InitialMeasure(c, run[0]);
    StepsAreCounted(c, run);
  }

  lemma {:induction false} StepsAreCounted(c: Config, run: seq<State>)
    requires IsRun(c, run)
    ensures |run| - 1 + Measure(run[|run| - 1].readers) <= Measure(run[0].readers) + 2 * SpuriousIn(c, run)
    decreases |run|
  {
    hide Measure, Progress, Step, SpuriousWake;
    var n := |run| - 1;
    if n > 0 {
      StepsAreCounted(c, run[..n]);
      assert Next(c, run[n - 1], run[n - 1 + 1]);
      NextChangesMeasure(c, run[n - 1], run[n]);
    }
  }

  lemma NextChangesMeasure(c: Config, s: State, s': State)
    requires Next(c, s, s')
    ensures Measure(s'.readers) <= if Progress(c, s, s') then Measure(s.readers) - 1 else Measure(s.readers) + 1
  {
    hide Measure, Step, SpuriousWake;
    if i :| Step(c, s, i, s') {
      StepLowersMeasure(c, s, i, s');
    } else {
      var i :| SpuriousWake(c, s, i, s');
      SpuriousRaisesMeasure(c, s, i, s');
    }
  }

  lemma InitialMeasure(c: Config, s: State)
    requires Init(c, s)
    ensures Measure(s.readers) <= |c.jobs| * (6 * |c.jobs| + 7)
  {
    var n := |c.jobs|;
    SumAtMost(Ranks(s.readers), 6);
    SumAtMost(Awakes(s.readers), 1);
    MulMonotone(n + 1, Sum(Ranks(s.readers)), n * 6);
    assert (n + 1) * (n * 6) + n == n * (6 * n + 7);
  }

  /**
   * At every point of every interleaving: permits are conserved, buffers are bounded or exclusive,
   * nobody has acquired more than twice, and an unfinished batch can go on.
   */
  lemma ProtocolIsSafe(c: Config, run: seq<State>, k: nat)
    requires IsRun(c, run) && k < |run| && c.capacity > 0
    ensures var s := run[k];
            && |s.readers| == |s.acquires| == |c.jobs|
            && s.available + Sum(Helds(c, s.readers)) == c.capacity
            && (Sum(Buffers(s.readers)) <= c.capacity || exists i :: Exclusive(c, s, i))
            && (forall i :: 0 <= i < |s.acquires| ==> s.acquires[i] <= 2)
            && (Finished(s) || exists s' :: Progress(c, s, s'))
  {
    RunInv(c, run, k);
    var s := run[k];
    BuffersBounded(c, s);
    forall i | 0 <= i < |s.acquires|
      ensures s.acquires[i] <= 2
    {
      AtMostTwoAcquires(c, s, i);
    }
    if !Finished(s) {
      SomeoneCanStep(c, s);
    }
  }

  // ---- the budget object ----

  /**
   * The budget that the readers of a batch share. The ghost state is where the protocol stands; every
   * method is a step of one of its readers, and `available` follows.
   */
  class OwnedReadBudget {
    const capacity: u64
    var available: u64
    ghost const config: Config
    ghost var protocol: State

    ghost predicate Valid()
      reads this
    {
      && capacity == config.capacity && available == protocol.available
      && Inv(config, protocol)
    }

    constructor (bytes: u64, ghost jobs: seq<Job>)
      ensures Valid() && config == Config(bytes, jobs) && Init(config, protocol)
    {
      capacity := bytes;
      available := bytes;
      config := Config(bytes, jobs);
      protocol := State(bytes, seq(|jobs|, k => Ready), seq(|jobs|, k => 0));
      new;
      InitInv(config, protocol);
    }

    /** A step that leaves the budget alone: a start, a read that fills its buffer, a spurious wake-up. */
    ghost method Proceed(next: State)
      requires Valid() && Next(config, protocol, next) && next.available == protocol.available
      modifies this`protocol
      ensures Valid() && protocol == next
    {
      NextInv(config, protocol, next);
      protocol := next;
    }

    /** Reader `i` passes the acquire loop once: it takes its charge, for a buffer of `reach`, or waits. */
    method TryAcquire(bytes: u64, ghost i: nat, ghost reach: nat) returns (permit: Option<u64>)
      requires Valid() && i < |protocol.readers| && protocol.readers[i].Trying?
      requires bytes == Amount(config.jobs[i], protocol.readers[i].retry)
      requires MayRead(config.jobs[i], protocol.readers[i].retry, reach)
      modifies this`available, this`protocol
      ensures Valid() && Step(config, old(protocol), i, protocol)
      ensures var retry := old(protocol).readers[i].retry;
              protocol.readers[i] == if permit.Some? then Reading(retry, reach) else Sleeping(retry)
      ensures permit.Some? ==> permit.value == Held(config, config.jobs[i], protocol.readers[i])
    {
      ghost var before, retry := protocol, protocol.readers[i].retry;
      assert ReaderOk(config, before, i);
      var charged := Min(bytes, capacity);
      if available < charged {
        protocol := Become(before, i, Sleeping(retry));
        StepInv(config, before, i, protocol);
        return None;
      }
      available := available - charged;
      protocol := Grant(config, before, i, reach);
      StepInv(config, before, i, protocol);
      return Some(charged);
    }

    /** Reader `i` drops its permit, done or to try once more; the charge fits back without overflow. */
    method GiveBack(permit: u64, ghost i: nat, ghost after: Phase)
      requires Valid() && i < |protocol.readers|
      requires var p := protocol.readers[i];
               && permit == Held(config, config.jobs[i], p)
               && ((after.Done? && (p.Reading? || p.Holding?)) || (after == Trying(true) && p.Reading? && !p.retry))
      modifies this`available, this`protocol
      ensures Valid() && Step(config, old(protocol), i, protocol)
      ensures protocol.readers[i] == after
    {
      ghost var before := protocol;
      protocol := Release(config, before, i, after);
      StepInv(config, before, i, protocol);
      available := available + permit;
    }
  }
}
