/** mrim.c: the options of the process manager, and what one pass over the slots of its worker processes
    makes of them. */
module WorkerSlots {
  import opened Bytes
  import opened Common

  datatype Result<T> = Ok(value: T) | Err

  const SOMAXCONN := 4096
  /** A slot of plist with no process. */
  const VACANT := -1

  // ---------- options ----------

  /** -d, --min-worker, --max-worker and -w. */
  datatype Options = Options(adapt: bool, minWorker: Option<int>, maxWorker: Option<int>, workers: Option<int>)
  datatype Config = Config(adapt: bool, min: int, slots: int)

  /** mrim.c:991-1107. */
  function CheckOptions(o: Options): Result<Config> {
    var minmaxset := o.minWorker.Some? || o.maxWorker.Some?;
    var adapt := o.adapt || o.workers.None?;
    var min := if o.workers.Some? then o.workers.value else if o.minWorker.Some? then o.minWorker.value else 5;
    var asked := if o.workers.Some? then o.workers.value else if o.maxWorker.Some? then o.maxWorker.value else 0;
    var max := if asked == 0 then if adapt then 20 else 3 else asked;
    if o.minWorker.Some? && (o.minWorker.value < 0 || o.minWorker.value >= SOMAXCONN - 10) then Err
    else if o.workers.Some? && (o.workers.value < 1 || o.workers.value >= SOMAXCONN) then Err
    else if minmaxset && !adapt then Err
    else if adapt && o.workers.Some? then Err
    else if max < 1 || max >= SOMAXCONN then Err
    else if minmaxset && max <= min then Err
    else Ok(Config(adapt, min, max))
  }

  predicate Proper(c: Config) {
    0 <= c.min && 1 <= c.slots && if c.adapt then c.min < c.slots else c.min == c.slots
  }

  /** Options that are accepted leave an adaptive pool at least one slot above its minimum, defaults
      included, and a fixed pool exactly as many slots as workers. */
  lemma {:induction false} AcceptedOptionsAreProper(o: Options)
    requires CheckOptions(o).Ok?
    ensures Proper(CheckOptions(o).value)
  {
    assert o.workers.Some? && (o.minWorker.Some? || o.maxWorker.Some?) ==> CheckOptions(o).Err?;
  }

  /** Which options are accepted, and what they mean. With -w the pool is fixed, and none of the adaptive
      options may be given; without, it is adaptive, with 5 and 20 for a minimum and a maximum that are
      left out, and if either is given there must be room between them. */
  lemma OptionsMean(o: Options)
    ensures o.workers.Some? ==>
      CheckOptions(o) ==
        if !o.adapt && o.minWorker.None? && o.maxWorker.None? && 1 <= o.workers.value <= 4095
        then Ok(Config(false, o.workers.value, o.workers.value)) else Err
    ensures o.workers.None? ==>
      var min := if o.minWorker.Some? then o.minWorker.value else 5;
      var max := if o.maxWorker.Some? && o.maxWorker.value != 0 then o.maxWorker.value else 20;
      CheckOptions(o) ==
        if 0 <= min < 4086 && 1 <= max <= 4095 && min < max then Ok(Config(true, min, max)) else Err
  {
  }

  // ---------- counting ----------

  function Tracked(s: seq<int>): nat {
    if s == [] then 0 else Tracked(s[..|s| - 1]) + if s[|s| - 1] == VACANT then 0 else 1
  }

  lemma {:induction false} TrackedSet(s: seq<int>, i: nat, v: int)
    requires i < |s|
    ensures Tracked(s[i := v]) == Tracked(s) - (if s[i] == VACANT then 0 else 1) + (if v == VACANT then 0 else 1)
  {
    var t, front := s[i := v], s[..|s| - 1];
    if i < |s| - 1 {
      assert t[..|s| - 1] == front[i := v];
      TrackedSet(front, i, v);
    } else {
      assert t[..|s| - 1] == front;
    }
  }

  lemma {:induction false} TrackedNone(s: seq<int>)
    ensures Tracked(s) <= |s|
    ensures Tracked(s) == 0 <==> forall i :: 0 <= i < |s| ==> s[i] == VACANT
  {
    if s != [] {
      var front := s[..|s| - 1];
      TrackedNone(front);
      assert forall i :: 0 <= i < |front| ==> front[i] == s[i];
    }
  }

  lemma {:induction false} TrackedAll(s: seq<int>)
    ensures Tracked(s) == |s| <==> forall i :: 0 <= i < |s| ==> s[i] != VACANT
  {
    if s != [] {
      var front := s[..|s| - 1];
      TrackedAll(front);
      TrackedNone(front);
      assert forall i :: 0 <= i < |front| ==> front[i] == s[i];
    }
  }

  /** The first process that is tracked is given up. */
  function ClearFirst(s: seq<int>): seq<int> {
    if s == [] then [] else if s[0] != VACANT then [VACANT] + s[1..] else [VACANT] + ClearFirst(s[1..])
  }

  lemma {:induction false} ClearFirstAt(s: seq<int>, i: nat)
    requires i < |s| && s[i] != VACANT && forall j :: 0 <= j < i ==> s[j] == VACANT
    ensures ClearFirst(s) == s[i := VACANT]
  {
    if i > 0 {
      ClearFirstAt(s[1..], i - 1);
      assert s[i := VACANT] == [s[0]] + s[1..][i - 1 := VACANT];
    } else {
      assert s[0 := VACANT] == [VACANT] + s[1..];
    }
  }

  lemma {:induction false} ClearFirstNone(s: seq<int>)
    requires forall j :: 0 <= j < |s| ==> s[j] == VACANT
    ensures ClearFirst(s) == s
  {
    if s != [] { ClearFirstNone(s[1..]); }
  }

  /** Giving up the first loses one worker, if there is one. */
  lemma {:induction false} ClearFirstTracks(s: seq<int>)
    ensures |ClearFirst(s)| == |s|
    ensures Tracked(ClearFirst(s)) == if Tracked(s) > 0 then Tracked(s) - 1 else 0
  {
    TrackedNone(s);
    if Tracked(s) == 0 {
      ClearFirstNone(s);
    } else {
      var i := FirstTracked(s);
      ClearFirstAt(s, i);
      TrackedSet(s, i, VACANT);
    }
  }

  lemma {:induction false} FirstTracked(s: seq<int>) returns (i: nat)
    requires exists j :: 0 <= j < |s| && s[j] != VACANT
    ensures i < |s| && s[i] != VACANT && forall j :: 0 <= j < i ==> s[j] == VACANT
  {
    i := 0;
    while s[i] == VACANT
      invariant i < |s| && forall j :: 0 <= j < i ==> s[j] == VACANT
      invariant exists j :: i <= j < |s| && s[j] != VACANT
      decreases |s| - i
    {
      i := i + 1;
    }
  }

  // ---------- what waitpid answers ----------

  /** What waitpid with WNOHANG may answer for a process: running, with a changed status, or none of
      ours. */
  datatype Waited = Unchanged | Changed(ended: bool) | Failed

  predicate Ended(w: Waited) {
    w.Failed? || (w.Changed? && w.ended)
  }

  /** The slots once the ended processes are dropped. */
  function Scan(s: seq<int>, w: seq<Waited>): (r: seq<int>)
    requires |s| == |w|
    ensures |r| == |s|
    ensures forall i :: 0 <= i < |s| ==> r[i] == if Ended(w[i]) then VACANT else s[i]
  {
    seq(|s|, i requires 0 <= i < |s| => if Ended(w[i]) then VACANT else s[i])
  }

  lemma {:induction false} TrackedFewer(s: seq<int>, t: seq<int>)
    requires |s| == |t| && forall i :: 0 <= i < |s| ==> t[i] == VACANT || t[i] == s[i]
    ensures Tracked(t) <= Tracked(s)
  {
    if s != [] {
      TrackedFewer(s[..|s| - 1], t[..|t| - 1]);
    }
  }

  // ---------- what one processup finds ----------

  /** What waitpid answers in the first count and in the loop, and what comes of starting a process
      in each slot: its id, or nothing, when the program is missing or stays inaccessible. */
  datatype Found = Found(counted: seq<Waited>, waited: seq<Waited>, started: seq<int>)

  predicate Slots(s: seq<int>) {
    forall i :: 0 <= i < |s| ==> s[i] == VACANT || s[i] > 1
  }

  predicate ForSlots(x: Found, n: nat) {
    |x.counted| == |x.waited| == |x.started| == n && Slots(x.started)
  }

  function Free(r: seq<int>): nat {
    if r == [] then 0 else Free(r[..|r| - 1]) + if r[|r| - 1] == VACANT then 1 else 0
  }

  lemma {:induction false} FreeOrTracked(r: seq<int>)
    ensures Free(r) + Tracked(r) == |r|
  {
    if r != [] { FreeOrTracked(r[..|r| - 1]); }
  }

  lemma {:induction false} FreeFront(r: seq<int>, i: nat)
    requires i < |r|
    ensures Free(r[..i + 1]) == Free(r[..i]) + if r[i] == VACANT then 1 else 0
    ensures Tracked(r[..i + 1]) == Tracked(r[..i]) + if r[i] == VACANT then 0 else 1
  {
    assert r[..i + 1][..i] == r[..i];
  }

  /** Whether processup tries to start a worker in slot i, when n were counted and r is left once the
      ended ones are dropped: in every free slot of a fixed pool, in the first one when one is to be
      added, and otherwise in as many as are missing to the minimum. */
  predicate Attempted(c: Config, addone: bool, r: seq<int>, n: nat, i: nat)
    requires i < |r|
  {
    r[i] == VACANT && (!c.adapt || if addone then Free(r[..i]) == 0 else Free(r[..i]) < c.min - n)
  }

  /** What one processup makes of the slots s. Where an attempt fails the slot stays vacant, but it is
      counted; an addition stops behind its attempt, whatever comes of it. */
  ghost predicate Refilled(c: Config, addone: bool, s: seq<int>, w: seq<Waited>, f: seq<int>, t: seq<int>)
    requires |s| == |w| == |f|
  {
    var r := Scan(s, w);
    && |t| == |s|
    && forall i :: 0 <= i < |s| ==> t[i] == SlotAfter(c, addone, s, r, f, i)
  }

  function SlotAfter(c: Config, addone: bool, s: seq<int>, r: seq<int>, f: seq<int>, i: nat): int
    requires |s| == |r| == |f| && i < |s|
  {
    if addone && Free(r[..i]) > 0 then s[i]
    else if Attempted(c, addone, r, Tracked(s), i) then f[i]
    else r[i]
  }

  /** Every attempt below slot k gave a process. */
  ghost predicate Succeeded(c: Config, r: seq<int>, n: nat, f: seq<int>, k: nat)
    requires k <= |r| == |f|
  {
    forall i :: 0 <= i < k && Attempted(c, false, r, n, i) ==> f[i] != VACANT
  }

  /** How many attempts there are below slot k when none is to be added beyond the minimum. */
  function Attempts(c: Config, r: seq<int>, n: nat, k: nat): int
    requires k <= |r|
  {
    if c.adapt then Min(Free(r[..k]), Max(0, c.min - n)) else Free(r[..k])
  }

  lemma {:induction false} AttemptsTrack(c: Config, s: seq<int>, w: seq<Waited>, f: seq<int>, t: seq<int>, k: nat)
    requires |s| == |w| == |f| && Refilled(c, false, s, w, f, t) && k <= |s|
    ensures var r, n := Scan(s, w), Tracked(s);
      && Tracked(t[..k]) <= Tracked(r[..k]) + Attempts(c, r, n, k)
      && (Tracked(t[..k]) == Tracked(r[..k]) + Attempts(c, r, n, k) <==> Succeeded(c, r, n, f, k))
  {
    assert |t| == |s|;
    hide Scan, Refilled, Tracked, Free;
    var r := Scan(s, w);
    if k > 0 {
      AttemptsTrack(c, s, w, f, t, k - 1);
      FreeFront(r, k - 1);
      FreeFront(t, k - 1);
      RefilledAt(c, false, s, w, f, t, k - 1);
    } else {
      assert t[..0] == r[..0] == [];
      NothingFree();
    }
  }

  lemma NothingFree()
    ensures Free([]) == 0 && Tracked([]) == 0
  {
  }

  lemma RefilledAt(c: Config, addone: bool, s: seq<int>, w: seq<Waited>, f: seq<int>, t: seq<int>, i: nat)
    requires |s| == |w| == |f| && Refilled(c, addone, s, w, f, t) && i < |s|
    ensures |t| == |s| && t[i] == SlotAfter(c, addone, s, Scan(s, w), f, i)
  {
  }

  /** The pool ends with as many workers as were wanted, all slots of a fixed one and what was missing
      to the minimum of an adaptive one, if and only if every attempted start gave a process; it never
      ends with more. */
  lemma {:induction false} FilledIffAllStarted(c: Config, s: seq<int>, w: seq<Waited>, f: seq<int>, t: seq<int>)
    requires |s| == |w| == |f| && Refilled(c, false, s, w, f, t)
    ensures var r, n := Scan(s, w), Tracked(s);
      var wanted := Tracked(r) + if c.adapt then Min(|s| - Tracked(r), Max(0, c.min - n)) else |s| - Tracked(r);
      Tracked(t) <= wanted && (Tracked(t) == wanted <==> Succeeded(c, r, n, f, |s|))
  {
    assert |t| == |s|;
    hide Refilled, Scan;
    var r := Scan(s, w);
    AttemptsTrack(c, s, w, f, t, |s|);
    FreeOrTracked(r);
    assert r[..|s|] == r && t[..|s|] == t;
  }

  /** An adaptive pool reaches its minimum if and only if the loop finds as many still running, or finds
      running all that were counted and every attempted start gives a process. A worker that ends
      between the count and the loop is not replaced by this pass. */
  lemma {:induction false} ReachesMinimumIff(c: Config, s: seq<int>, w: seq<Waited>, f: seq<int>, t: seq<int>)
    requires Proper(c) && c.adapt && |s| == c.slots == |w| == |f| && Refilled(c, false, s, w, f, t)
    ensures var r := Scan(s, w);
      Tracked(t) >= c.min <==>
        Tracked(r) >= c.min || (Tracked(r) == Tracked(s) && Succeeded(c, r, Tracked(s), f, |s|))
  {
    hide Refilled, Scan, Tracked, Free;
    var r := Scan(s, w);
    FilledIffAllStarted(c, s, w, f, t);
    ScanTracks(s, w);
    FreeOrTracked(r);
  }

  /** An addition changes at most the first free slot, to what comes of its one attempt. */
  lemma {:induction false} AdditionChangesOne(c: Config, s: seq<int>, w: seq<Waited>, f: seq<int>, t: seq<int>)
    requires |s| == |w| == |f| && c.adapt && Refilled(c, true, s, w, f, t)
    ensures var r := Scan(s, w);
      if Free(r) == 0 then t == s
      else exists i :: 0 <= i < |s| && FirstFree(r, i) && t == s[i := f[i]]
    ensures Tracked(t) <= Tracked(s) + 1
  {
    var r := Scan(s, w);
    FreeOrTracked(r);
    if Free(r) == 0 {
      TrackedAll(r);
      forall i | 0 <= i < |s| ensures t[i] == s[i] { FreeNone(r, i); }
      assert t == s;
    } else {
      var i := FirstFreeSlot(r);
      forall j | 0 <= j < |s| ensures t[j] == s[i := f[i]][j] {
        if j <= i { FreeNone(r[..i], j); assert r[..i][..j] == r[..j]; } else { FreeSome(r, i, j); }
      }
      assert r[..i][..i] == r[..i];
      assert t == s[i := f[i]];
      TrackedSet(s, i, f[i]);
    }
  }

  ghost predicate FirstFree(r: seq<int>, i: nat)
    requires i < |r|
  {
    r[i] == VACANT && forall j :: 0 <= j < i ==> r[j] != VACANT
  }

  lemma {:induction false} FreeNone(r: seq<int>, i: nat)
    requires i <= |r| && forall j :: 0 <= j < |r| ==> r[j] != VACANT
    ensures Free(r[..i]) == 0
  {
    if i > 0 { FreeNone(r, i - 1); assert r[..i][..i - 1] == r[..i - 1]; }
  }

  lemma {:induction false} FreeSome(r: seq<int>, i: nat, j: nat)
    requires i < j <= |r| && r[i] == VACANT
    ensures Free(r[..j]) > 0
  {
    assert r[..j][..j - 1] == r[..j - 1];
    if i < j - 1 { FreeSome(r, i, j - 1); }
  }

  lemma {:induction false} FirstFreeSlot(r: seq<int>) returns (i: nat)
    requires Free(r) > 0
    ensures i < |r| && FirstFree(r, i)
  {
    FreeOrTracked(r);
    TrackedAll(r);
    i := 0;
    while r[i] != VACANT
      invariant i < |r| && forall j :: 0 <= j < i ==> r[j] != VACANT
      invariant exists j :: i <= j < |r| && r[j] == VACANT
      decreases |r| - i
    {
      i := i + 1;
    }
  }

  /** The first k slots hold what comes of starting in them, and no other slot holds a process. */
  ghost predicate StartedOnly(f: seq<int>, k: int, t: seq<int>) {
    |t| == |f| && 0 <= k <= |f| && forall i :: 0 <= i < |t| ==> t[i] == if i < k then f[i] else VACANT
  }

  /** All workers that were asked for are there if and only if every start of them gave a process. */
  lemma {:induction false} StartedOnlyTracks(f: seq<int>, k: int, t: seq<int>)
    requires StartedOnly(f, k, t)
    ensures Tracked(t) <= k
    ensures Tracked(t) == k <==> forall i :: 0 <= i < k ==> f[i] != VACANT
    decreases |t|
  {
    if t != [] {
      var f', t', k' := f[..|f| - 1], t[..|t| - 1], Min(k, |t| - 1);
      assert forall i :: 0 <= i < |t'| ==> t'[i] == t[i] && f'[i] == f[i];
      StartedOnlyTracks(f', k', t');
      if k == |t| {
        assert (forall i :: 0 <= i < k ==> f[i] != VACANT) <==> (forall i :: 0 <= i < k' ==> f'[i] != VACANT) && f[k'] != VACANT;
      } else {
        assert (forall i :: 0 <= i < k ==> f[i] != VACANT) <==> (forall i :: 0 <= i < k' ==> f'[i] != VACANT);
      }
    }
  }

  /** When none was tracked, processup starts in the first slots, as many as are wanted. */
  lemma {:induction false} FromNothing(c: Config, s: seq<int>, w: seq<Waited>, f: seq<int>, t: seq<int>)
    requires |s| == |w| == |f| == c.slots && Proper(c) && Tracked(s) == 0 && Refilled(c, false, s, w, f, t)
    ensures StartedOnly(f, c.min, t)
  {
    TrackedNone(s);
    var r := Scan(s, w);
    forall i | 0 <= i < |s| ensures t[i] == if i < c.min then f[i] else VACANT {
      AllFree(r, i);
    }
  }

  lemma {:induction false} AllFree(r: seq<int>, i: nat)
    requires i <= |r| && forall j :: 0 <= j < |r| ==> r[j] == VACANT
    ensures Free(r[..i]) == i
  {
    if i > 0 { AllFree(r, i - 1); assert r[..i][..i - 1] == r[..i - 1]; }
  }

  /** A failing start: a fixed pool of two whose first start fails stays at one worker. */
  lemma FailedStartLeavesGap()
    ensures var c := Config(false, 2, 2);
      && Proper(c) && Refilled(c, false, [VACANT, VACANT], [Failed, Failed], [VACANT, 7], [VACANT, 7])
      && Tracked([VACANT, 7]) == 1 < c.slots
  {
    assert [VACANT, 7][..1] == [VACANT];
    TrackedNone([VACANT]);
  }

  /** One that is counted although nothing was started: an adaptive pool misses its minimum with a free
      slot left, because the failed attempt counts as a worker. */
  lemma FailedStartIsCounted()
    ensures var c := Config(true, 1, 2);
      && Proper(c) && Refilled(c, false, [VACANT, VACANT], [Failed, Failed], [VACANT, 7], [VACANT, VACANT])
      && Tracked([VACANT, VACANT]) == 0 < c.min
  {
    var s := [VACANT, VACANT];
    TrackedNone(s);
    assert s[..0] == [] && s[..1] == [VACANT] && [VACANT][..0] == [];
    assert Free([VACANT]) == 1;
    assert Scan(s, [Failed, Failed]) == s;
  }

  /** A worker that is counted and ends before the loop looks at it: an adaptive pool misses its minimum
      although no start fails, because none is tried. */
  lemma EndedWorkerIsNotReplaced()
    ensures var c, s, w, f := Config(true, 1, 2), [7, VACANT], [Failed, Failed], [9, 9];
      && Proper(c) && Refilled(c, false, s, w, f, [VACANT, VACANT])
      && Succeeded(c, Scan(s, w), Tracked(s), f, 2)
      && Tracked([VACANT, VACANT]) == 0 < c.min
  {
    var s, r := [7, VACANT], [VACANT, VACANT];
    assert Scan(s, [Failed, Failed]) == r;
    assert s[..1] == [7] && [7][..0] == [];
    assert Tracked([7]) == 1 && Tracked(s) == 1;
    TrackedNone(r);
  }

  // ---------- the loop of processup ----------

  /** The loop of processup before slot i: s is what it started from, cur what is there now, n how
      many were counted and tot how many with the attempts since. */
  ghost predicate Progress(c: Config, addone: bool, s: seq<int>, x: Found, cur: seq<int>, i: nat, n: nat, tot: nat)
    requires ForSlots(x, |s|)
  {
    var r := Scan(s, x.waited);
    && |cur| == |s| && i <= |s| && (c.adapt ==> n == Tracked(s))
    && (forall j :: i <= j < |s| ==> cur[j] == s[j])
    && (forall j :: 0 <= j < i ==> cur[j] == SlotAfter(c, addone, s, r, x.started, j))
    && (addone ==> Free(r[..i]) == 0)
    && (c.adapt && !addone ==> tot == n + Min(Free(r[..i]), Max(0, c.min - n)))
  }

  lemma ProgressStarts(c: Config, addone: bool, s: seq<int>, x: Found, n: nat)
    requires ForSlots(x, |s|) && (c.adapt ==> n == Tracked(s))
    ensures Progress(c, addone, s, x, s, 0, n, n)
  {
    hide Tracked;
    assert Scan(s, x.waited)[..0] == [];
  }

  lemma {:induction false} ProgressStep(c: Config, addone: bool, s: seq<int>, x: Found, cur: seq<int>, i: nat, n: nat, tot: nat,
                                        next: seq<int>, tried: bool)
    requires ForSlots(x, |s|) && (addone ==> c.adapt) && Progress(c, addone, s, x, cur, i, n, tot) && i < |s|
    requires tried == ((!c.adapt || c.min > tot || addone) && (s[i] == VACANT || Ended(x.waited[i])))
    requires next == cur[i := if tried then x.started[i] else if Ended(x.waited[i]) then VACANT else s[i]]
    ensures !(tried && addone) ==> Progress(c, addone, s, x, next, i + 1, n, if tried then tot + 1 else tot)
    ensures tried && addone ==> Refilled(c, addone, s, x.waited, x.started, next)
  {
    hide Tracked, Free;
    var r := Scan(s, x.waited);
    FreeFront(r, i);
    assert next[i] == SlotAfter(c, addone, s, r, x.started, i);
    if tried && addone {
      forall j | i < j < |s| ensures next[j] == SlotAfter(c, addone, s, r, x.started, j) {
        FreeSome(r, i, j);
      }
    }
  }

  lemma ProgressDone(c: Config, addone: bool, s: seq<int>, x: Found, cur: seq<int>, n: nat, tot: nat)
    requires ForSlots(x, |s|) && Progress(c, addone, s, x, cur, |s|, n, tot)
    ensures Refilled(c, addone, s, x.waited, x.started, cur)
  {
    hide Tracked, Free, SlotAfter;
  }

  lemma ScanTracks(s: seq<int>, w: seq<Waited>)
    requires |s| == |w|
    ensures Tracked(Scan(s, w)) <= Tracked(s)
  {
    TrackedFewer(s, Scan(s, w));
  }

  /** However the starts turn out, the pool stays within its bounds. */
  lemma {:induction false} RefilledBounds(c: Config, addone: bool, s: seq<int>, x: Found, t: seq<int>)
    requires ForSlots(x, |s|) && (addone ==> c.adapt) && Refilled(c, addone, s, x.waited, x.started, t)
    requires |s| == c.slots && Proper(c) && Slots(s)
    ensures Slots(t)
    ensures addone ==> Tracked(t) <= Tracked(s) + 1
    ensures c.adapt && !addone ==> Tracked(t) <= Max(Tracked(s), c.min)
    ensures !addone && Tracked(s) == 0 ==> StartedOnly(x.started, c.min, t)
  {
    ScanTracks(s, x.waited);
    forall i | 0 <= i < |t| ensures t[i] == VACANT || t[i] > 1 {
      assert t[i] in {s[i], Scan(s, x.waited)[i], x.started[i]};
    }
    hide Tracked, Refilled, Scan;
    if addone {
      AdditionChangesOne(c, s, x.waited, x.started, t);
    } else {
      FilledIffAllStarted(c, s, x.waited, x.started, t);
      if Tracked(s) == 0 { FromNothing(c, s, x.waited, x.started, t); }
    }
  }
}
