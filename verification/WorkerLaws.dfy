/** mrim.c: what the turns of the resident loop promise, in terms of what they find. */
module WorkerLaws {
  import opened Bytes
  import opened Handshake
  import opened WorkerSlots
  import opened WorkerTurns

  // ---------- what may be found ----------

  predicate NoneEnded(w: seq<Waited>) {
    forall i :: 0 <= i < |w| ==> !Ended(w[i])
  }

  /** No pass finds an ended process. */
  predicate Calm(x: Found) {
    NoneEnded(x.counted) && NoneEnded(x.waited)
  }

  predicate AllStart(f: seq<int>) {
    forall i :: 0 <= i < |f| ==> f[i] != VACANT
  }

  /** No process that is counted has ended when the loop looks at it. */
  predicate NoneEndsBetween(x: Found) {
    |x.counted| == |x.waited| && forall i :: 0 <= i < |x.waited| && Ended(x.waited[i]) ==> Ended(x.counted[i])
  }

  predicate RunsThrough(x: Found, i: nat) {
    i < |x.counted| == |x.waited| && !Ended(x.counted[i]) && !Ended(x.waited[i])
  }

  /** No command that concerns the workers is carried out. */
  predicate Undisturbed(command: int, data1: int) {
    command != COMMAND || (data1 != START && data1 != STOP && data1 != RESTART && data1 != QUIT)
  }

  // ---------- one pass ----------

  lemma PassAt(c: Config, addone: bool, s: seq<int>, x: Found, i: nat)
    requires ForSlots(x, |s|) && i < |s|
    ensures var s0 := if c.adapt then Scan(s, x.counted) else s;
      Pass(c, addone, s, x)[i] == SlotAfter(c, addone, s0, Scan(s0, x.waited), x.started, i)
  {
    hide SlotAfter, Scan;
  }

  /** A pass over a fixed pool starts in every slot that is free or whose process has ended, and in no
      other. */
  lemma FixedPass(c: Config, s: seq<int>, x: Found, i: nat)
    requires ForSlots(x, |s|) && !c.adapt && i < |s|
    ensures Pass(c, false, s, x)[i] == if s[i] == VACANT || Ended(x.waited[i]) then x.started[i] else s[i]
  {
    hide Pass;
    PassAt(c, false, s, x, i);
  }

  /** A pass never drops a process that is found running. */
  lemma PassKeepsRunning(c: Config, addone: bool, s: seq<int>, x: Found, i: nat)
    requires ForSlots(x, |s|) && i < |s| && s[i] != VACANT && RunsThrough(x, i)
    ensures Pass(c, addone, s, x)[i] == s[i]
  {
    hide Tracked, Free, Pass;
    PassAt(c, addone, s, x, i);
    var s0 := if c.adapt then Scan(s, x.counted) else s;
    assert s0[i] == s[i] && Scan(s0, x.waited)[i] == s[i];
  }

  lemma ScanCalm(s: seq<int>, w: seq<Waited>)
    requires |s| == |w| && NoneEnded(w)
    ensures Scan(s, w) == s
  {
  }

  /** A pass brings the pool to its minimum, if every attempted start succeeds and none that was counted
      has ended. */
  lemma {:induction false} PassReachesMinimum(c: Config, s: seq<int>, x: Found)
    requires ForSlots(x, |s|) && Proper(c) && |s| == c.slots && AllStart(x.started) && (c.adapt ==> NoneEndsBetween(x))
    ensures Tracked(Pass(c, false, s, x)) >= c.min
  {
    var t := Pass(c, false, s, x);
    if c.adapt {
      hide Tracked, Refilled, Free, Pass;
      var s0 := Scan(s, x.counted);
      assert Scan(s0, x.waited) == s0;
      PassIsRefilled(c, false, s, x, t);
      ReachesMinimumIff(c, s0, x.waited, x.started, t);
    } else {
      hide Tracked, Free, Pass;
      forall i | 0 <= i < |t| ensures t[i] != VACANT { FixedPass(c, s, x, i); }
      TrackedAll(t);
    }
  }

  /** A calm pass over an adaptive pool brings it up to its minimum and no further. */
  lemma {:induction false} CalmPass(c: Config, s: seq<int>, x: Found)
    requires ForSlots(x, |s|) && Proper(c) && c.adapt && |s| == c.slots && Calm(x)
    ensures Tracked(s) >= c.min ==> Pass(c, false, s, x) == s
    ensures AllStart(x.started) ==> Tracked(Pass(c, false, s, x)) == Max(Tracked(s), c.min)
  {
    var t := Pass(c, false, s, x);
    ScanCalm(s, x.counted);
    ScanCalm(s, x.waited);
    if Tracked(s) >= c.min {
      forall i | 0 <= i < |s| ensures t[i] == s[i] {
        hide Tracked, Free;
        assert t[i] == SlotAfter(c, false, s, s, x.started, i);
      }
    } else if AllStart(x.started) {
      hide Tracked, Refilled, Free, Pass, Scan;
      PassIsRefilled(c, false, s, x, t);
      FilledIffAllStarted(c, s, x.waited, x.started, t);
      FreeOrTracked(s);
    }
  }

  /** An addition to an adaptive pool takes the first free slot. */
  lemma {:induction false} CalmAddition(c: Config, s: seq<int>, x: Found) returns (i: nat)
    requires ForSlots(x, |s|) && c.adapt && Calm(x) && Tracked(s) < |s|
    ensures i < |s| && FirstFree(s, i) && Pass(c, true, s, x) == s[i := x.started[i]]
    ensures Tracked(Pass(c, true, s, x)) == Tracked(s) + if x.started[i] == VACANT then 0 else 1
  {
    hide Tracked, Refilled, Free, Pass, Scan;
    ScanCalm(s, x.counted);
    ScanCalm(s, x.waited);
    var t := Pass(c, true, s, x);
    PassIsRefilled(c, true, s, x, t);
    FreeOrTracked(s);
    AdditionChangesOne(c, s, x.waited, x.started, t);
    i :| 0 <= i < |s| && FirstFree(s, i) && t == s[i := x.started[i]];
    TrackedSet(s, i, x.started[i]);
  }

  // ---------- one turn ----------

  /** While a stop is in force and no command comes, a turn does nothing. */
  lemma StoppedTurnDoesNothing(p: Setup, w: Workers, command: int, data1: int, x: Seen)
    requires ForTurn(x, |w.slots|) && w.stopped && Undisturbed(command, data1)
    ensures AfterTurn(p, w, command, data1, x) == w
  {
  }

  /** A start is called for in slot i of a fixed pool. */
  predicate Called(p: Setup, w: Workers, x: Seen, i: nat)
    requires ForTurn(x, |w.slots|) && i < |w.slots|
  {
    w.slots[i] == VACANT || Ended(x.again.waited[i]) || (p.reload && x.changed)
  }

  /** What one turn makes of a fixed pool: with restarting on every slot that is free, or whose process
      has ended, or whose program has changed gets what comes of a start; without, nothing happens. */
  lemma FixedTurn(p: Setup, w: Workers, command: int, data1: int, x: Seen, i: nat)
    requires ForTurn(x, |w.slots|) && i < |w.slots|
    requires !p.config.adapt && !w.stopped && Undisturbed(command, data1)
    ensures AfterTurn(p, w, command, data1, x).slots[i] ==
            if p.restart && Called(p, w, x, i) then x.again.started[i] else w.slots[i]
  {
    FixedPass(p.config, if p.reload && x.changed then Empty(|w.slots|) else w.slots, x.again, i);
  }

  /** A fixed pool with restarting on has all its workers after a turn if and only if every start that
      was called for gave a process. */
  lemma {:induction false} FixedTurnFillsIff(p: Setup, w: Workers, command: int, data1: int, x: Seen)
    requires ForTurn(x, |w.slots|) && !p.config.adapt && p.restart && !w.stopped && Undisturbed(command, data1)
    ensures Tracked(AfterTurn(p, w, command, data1, x).slots) == |w.slots| <==>
              forall i :: 0 <= i < |w.slots| && Called(p, w, x, i) ==> x.again.started[i] != VACANT
  {
    hide Tracked, AfterTurn;
    var t := AfterTurn(p, w, command, data1, x).slots;
    forall i | 0 <= i < |t|
      ensures t[i] == if Called(p, w, x, i) then x.again.started[i] else w.slots[i]
    {
      FixedTurn(p, w, command, data1, x, i);
    }
    TrackedAll(t);
  }

  /** The last pass of a turn brings the pool to its minimum, if its starts succeed and none that it
      counted ended; so does the one before, as long as the program is unchanged and those it found
      and started keep running. */
  lemma {:induction false} TurnReachesMinimum(p: Setup, w: Workers, command: int, data1: int, x: Seen)
    requires ProperPool(p, w) && ForTurn(x, |w.slots|) && p.restart
    requires !w.stopped && !w.exited && Undisturbed(command, data1)
    requires || (AllStart(x.again.started) && (p.config.adapt ==> NoneEndsBetween(x.again)))
             || (p.config.adapt && AllStart(x.kept.started) && NoneEndsBetween(x.kept)
                 && !(p.reload && x.changed) && Calm(x.again))
    ensures Tracked(AfterTurn(p, w, command, data1, x).slots) >= p.config.min
  {
    hide Tracked, Pass, Adapted;
    var c := p.config;
    if AllStart(x.again.started) && (c.adapt ==> NoneEndsBetween(x.again)) {
      var v := AfterTurn(p, w, command, data1, x);
      var a := if c.adapt then Adapted(p, w, x) else w;
      var b := if c.adapt then a.(slots := Pass(c, false, a.slots, x.kept)) else a;
      PassReachesMinimum(c, if p.reload && x.changed then Empty(|b.slots|) else b.slots, x.again);
    } else {
      var s := Adapted(p, w, x).slots;
      PassReachesMinimum(c, s, x.kept);
      CalmPass(c, Pass(c, false, s, x.kept), x.again);
    }
  }

  /** Exactly when: the turn ends with a pass over some slots s, and the minimum is reached if and only if
      the loop of that pass finds as many running, or finds all that were counted running and every start it
      tries gives a process. */
  lemma {:induction false} TurnMinimumIff(p: Setup, w: Workers, command: int, data1: int, x: Seen) returns (s: seq<int>)
    requires ProperPool(p, w) && ForTurn(x, |w.slots|) && p.config.adapt
    requires !w.stopped && !w.exited && Undisturbed(command, data1)
    ensures |s| == |w.slots| && AfterTurn(p, w, command, data1, x).slots == Pass(p.config, false, s, x.again)
    ensures p.reload && x.changed ==> Tracked(s) == 0
    ensures var counted := Scan(s, x.again.counted);
      var running := Scan(counted, x.again.waited);
      Tracked(AfterTurn(p, w, command, data1, x).slots) >= p.config.min <==>
        || Tracked(running) >= p.config.min
        || (Tracked(running) == Tracked(counted) && Succeeded(p.config, running, Tracked(counted), x.again.started, |s|))
  {
    hide Tracked, Pass, Adapted, Scan, Succeeded, Slots;
    var b := Pass(p.config, false, Adapted(p, w, x).slots, x.kept);
    EmptyTracksNone(|w.slots|);
    s := if p.reload && x.changed then Empty(|w.slots|) else b;
    var t := Pass(p.config, false, s, x.again);
    PassIsRefilled(p.config, false, s, x.again, t);
    hide Refilled;
    ReachesMinimumIff(p.config, Scan(s, x.again.counted), x.again.waited, x.again.started, t);
  }

  /** A changed program is stopped and started anew, in the first slots. */
  lemma {:induction false} ChangedProgramRestarts(p: Setup, w: Workers, command: int, data1: int, x: Seen)
    requires ProperPool(p, w) && ForTurn(x, |w.slots|) && p.restart && p.reload && x.changed
    requires !w.stopped && !w.exited && Undisturbed(command, data1)
    ensures StartedOnly(x.again.started, p.config.min, AfterTurn(p, w, command, data1, x).slots)
  {
    hide Tracked, Pass, Adapted;
    EmptyTracksNone(|w.slots|);
    PassBounds(p.config, false, Empty(|w.slots|), x.again);
  }

  predicate AllCalm(x: Seen) {
    NoneEnded(x.now) && Calm(x.extra) && Calm(x.kept) && Calm(x.again)
  }

  /** Three busy looks add one worker below max - 1, in the first free slot, and none above. Besides, the
      pool is brought to its minimum. */
  lemma {:induction false} BusyTurnAddsOne(p: Setup, w: Workers, command: int, data1: int, x: Seen)
    requires ProperPool(p, w) && ForTurn(x, |w.slots|) && p.config.adapt && !w.stopped && !w.exited
    requires Undisturbed(command, data1) && Busy3(x) && AllCalm(x) && !(p.reload && x.changed)
    requires AllStart(x.extra.started) && AllStart(x.kept.started)
    ensures var v := AfterTurn(p, w, command, data1, x);
      && v.nspike == 0
      && Tracked(v.slots) == Max(Tracked(w.slots) + (if Tracked(w.slots) < p.config.slots - 1 then 1 else 0), p.config.min)
      && (Tracked(w.slots) >= p.config.min && Tracked(w.slots) < p.config.slots - 1 ==>
            exists i :: 0 <= i < |w.slots| && FirstFree(w.slots, i) && v.slots == w.slots[i := x.extra.started[i]])
  {
    hide Tracked, Pass, FirstFree;
    var c := p.config;
    ScanCalm(w.slots, x.now);
    var a := Adapted(p, w, x).slots;
    if Tracked(w.slots) < c.slots - 1 {
      var i := CalmAddition(c, w.slots, x.extra);
    }
    CalmPass(c, a, x.kept);
    CalmPass(c, Pass(c, false, a, x.kept), x.again);
  }

  /** In an adaptive pool that has its minimum, a turn without three busy looks changes nothing but the
      count of quiet turns, unless these are enough to trim the first worker. */
  lemma {:induction false} IdleTurnTrims(p: Setup, w: Workers, command: int, data1: int, x: Seen)
    requires ProperPool(p, w) && ForTurn(x, |w.slots|) && p.config.adapt && !w.stopped && !w.exited
    requires Undisturbed(command, data1) && !Busy3(x) && AllCalm(x) && !(p.reload && x.changed)
    requires Tracked(w.slots) >= p.config.min
    ensures var v, enough := AfterTurn(p, w, command, data1, x), Quiet(x) && w.nspike + 1 >= p.spikes;
      && v.nspike == (if x.busy1 || enough then 0 else if Quiet(x) then w.nspike + 1 else w.nspike)
      && (if enough && Tracked(w.slots) > p.config.min
          then Tracked(v.slots) == Tracked(w.slots) - 1
               && exists i :: 0 <= i < |w.slots| && FirstOf(w.slots, i) && v.slots == w.slots[i := VACANT]
          else v.slots == w.slots)
  {
    hide Tracked, Pass, FirstOf;
    var c := p.config;
    ScanCalm(w.slots, x.now);
    var a := Adapted(p, w, x).slots;
    if Quiet(x) && w.nspike + 1 >= p.spikes && Tracked(w.slots) > c.min {
      ClearFirstTracks(w.slots);
      var i := FirstWorker(w.slots);
    }
    CalmPass(c, a, x.kept);
    CalmPass(c, a, x.again);
  }

  /** Slot i holds the first worker. */
  ghost predicate FirstOf(s: seq<int>, i: nat)
    requires i < |s|
  {
    s[i] != VACANT && forall j :: 0 <= j < i ==> s[j] == VACANT
  }

  lemma {:induction false} FirstWorker(s: seq<int>) returns (i: nat)
    requires Tracked(s) > 0
    ensures i < |s| && FirstOf(s, i) && ClearFirst(s) == s[i := VACANT]
  {
    TrackedNone(s);
    i := FirstTracked(s);
    ClearFirstAt(s, i);
  }

  /** Enough quiet turns have passed with more than the minimum running. */
  predicate Trims(p: Setup, w: Workers, x: Seen)
    requires ForTurn(x, |w.slots|)
  {
    Quiet(x) && w.nspike + 1 >= p.spikes && Tracked(Scan(w.slots, x.now)) > p.config.min
  }

  lemma {:induction false} AdaptedKeepsRunning(p: Setup, w: Workers, x: Seen, i: nat)
    requires ForTurn(x, |w.slots|) && i < |w.slots| && w.slots[i] != VACANT
    requires !Ended(x.now[i]) && RunsThrough(x.extra, i)
    requires Trims(p, w, x) ==> !FirstOf(Scan(w.slots, x.now), i)
    ensures Adapted(p, w, x).slots[i] == w.slots[i]
  {
    hide Tracked, Pass, ClearFirst;
    var r := Scan(w.slots, x.now);
    assert r[i] == w.slots[i];
    if Busy3(x) {
      PassKeepsRunning(p.config, true, r, x.extra, i);
    } else if Trims(p, w, x) {
      TrackedNone(r);
      var k := FirstWorker(r);
      assert k != i;
    }
  }

  /** A worker that is found running all through a turn keeps its slot, unless the program has changed, or
      enough quiet turns have passed with more than the minimum running and it is the first. */
  lemma {:induction false} RunningWorkerStays(p: Setup, w: Workers, command: int, data1: int, x: Seen, i: nat)
    requires ForTurn(x, |w.slots|) && !w.stopped && Undisturbed(command, data1)
    requires i < |w.slots| && w.slots[i] != VACANT
    requires !Ended(x.now[i]) && RunsThrough(x.extra, i) && RunsThrough(x.kept, i) && RunsThrough(x.again, i)
    requires !(p.reload && x.changed)
    requires p.config.adapt && Trims(p, w, x) ==> !FirstOf(Scan(w.slots, x.now), i)
    ensures AfterTurn(p, w, command, data1, x).slots[i] == w.slots[i]
  {
    hide Tracked, Pass, Slots;
    var c := p.config;
    var r := Scan(w.slots, x.now);
    var a := if c.adapt then Adapted(p, w, x) else w;
    if c.adapt { AdaptedKeepsRunning(p, w, x, i); }
    PassKeepsRunning(c, false, a.slots, x.kept, i);
    var b := if c.adapt then Pass(c, false, a.slots, x.kept) else a.slots;
    PassKeepsRunning(c, false, b, x.again, i);
  }

  /** A turn adds at most one worker beyond the minimum, and that only for three busy looks. */
  lemma {:induction false} TurnAddsAtMostOne(p: Setup, w: Workers, command: int, data1: int, x: Seen)
    requires ProperPool(p, w) && ForTurn(x, |w.slots|) && p.config.adapt && !w.stopped && !w.exited
    requires Undisturbed(command, data1)
    ensures Tracked(AfterTurn(p, w, command, data1, x).slots)
            <= Max(Tracked(w.slots) + if Busy3(x) then 1 else 0, p.config.min)
  {
    hide Tracked, Attended;
    AttendedProper(p, w, x);
  }

  // ---------- commands ----------

  /** What the commands make of the pool. A restart, and a start of a stopped pool, start the workers
      anew in the first slots; a stop and a quit leave none; nothing else concerns them. */
  lemma {:induction false} CommandsCarriedOut(p: Setup, w: Workers, command: int, data1: int, x: Seen)
    requires ProperPool(p, w) && ForTurn(x, |w.slots|) && !w.exited
    ensures var v := AfterTurn(p, w, command, data1, x);
      && (Undisturbed(command, data1) ==> v.stopped == w.stopped && !v.exited)
      && (command == COMMAND ==>
            && (data1 == RESTART || (data1 == START && w.stopped) ==>
                  !v.stopped && StartedOnly(x.onCommand.started, p.config.min, v.slots))
            && (data1 == START ==> !v.stopped)
            && (data1 == STOP ==> v.stopped && Tracked(v.slots) == 0)
            && (data1 == QUIT ==> Tracked(v.slots) == 0)
            && (data1 != QUIT ==> !v.exited) && (data1 == QUIT ==> v.exited))
  {
    hide Tracked, Pass, Adapted;
    var b := Attended(p, w, x);
    EmptyTracksNone(|w.slots|);
    PassBounds(p.config, false, Empty(|w.slots|), x.onCommand);
    PassBounds(p.config, false, w.slots, x.onCommand);
  }

  /** A start of a running pool adds what is missing and drops no worker that is found running. */
  lemma {:induction false} StartKeepsRunning(p: Setup, w: Workers, x: Seen, i: nat)
    requires ProperPool(p, w) && ForTurn(x, |w.slots|) && !w.exited && !w.stopped && i < |w.slots|
    ensures var u, v := AfterTurn(p, w, DONE, START, x), AfterTurn(p, w, COMMAND, START, x);
      && v.nspike == u.nspike
      && (u.slots[i] != VACANT && RunsThrough(x.onCommand, i) ==> v.slots[i] == u.slots[i])
      && (!p.config.adapt ==> v.slots[i] == if u.slots[i] == VACANT || Ended(x.onCommand.waited[i])
                                            then x.onCommand.started[i] else u.slots[i])
      && (p.config.adapt ==> Tracked(v.slots) <= Max(Tracked(u.slots), p.config.min))
  {
    hide Tracked, Pass, Attended;
    var u := Attended(p, w, x);
    AttendedProper(p, w, x);
    if u.slots[i] != VACANT && RunsThrough(x.onCommand, i) { PassKeepsRunning(p.config, false, u.slots, x.onCommand, i); }
    if !p.config.adapt { FixedPass(p.config, u.slots, x.onCommand, i); }
    PassBounds(p.config, false, u.slots, x.onCommand);
  }

  // ---------- whole runs ----------

  /** The starts of a turn succeed, and no pass misses a worker that ends between its count and its loop. */
  predicate StartsSucceed(x: Seen) {
    && AllStart(x.again.started) && NoneEndsBetween(x.again)
    && AllStart(x.onCommand.started) && NoneEndsBetween(x.onCommand)
  }

  /** Whatever happened before and whatever command it carries out, a turn whose starts succeed leaves the
      pool with all its workers, or at least its minimum of them, unless a stop is in force or the process
      has quit. */
  lemma {:induction false} TurnLeavesMinimum(p: Setup, w: Workers, command: int, data1: int, x: Seen)
    requires ProperPool(p, w) && ForTurn(x, |w.slots|) && p.restart && !w.exited && StartsSucceed(x)
    ensures var v := AfterTurn(p, w, command, data1, x);
      v.stopped || v.exited || Tracked(v.slots) >= p.config.min
  {
    if Undisturbed(command, data1) {
      hide Tracked, AfterTurn;
      CommandsCarriedOut(p, w, command, data1, x);
      if !w.stopped { TurnReachesMinimum(p, w, command, data1, x); }
    } else if data1 == START || data1 == RESTART {
      hide Tracked, Pass, Attended;
      var b := Attended(p, w, x);
      PassReachesMinimum(p.config, b.slots, x.onCommand);
      PassReachesMinimum(p.config, Empty(|w.slots|), x.onCommand);
    }
  }

  /** A run is its front, and then its last turn unless a quit was carried out before. */
  lemma RunMore(p: Setup, w: Workers, loads: seq<(int, int)>, xs: seq<Seen>) returns (v: Workers)
    requires |loads| == |xs| > 0 && ForTurns(xs, |w.slots|)
    ensures var l := |loads| - 1;
      && |loads[..l]| == |xs[..l]| && ForTurns(xs[..l], |w.slots|) && ForTurn(xs[l], |w.slots|)
      && v == AfterTurns(p, w, loads[..l], xs[..l])
      && AfterTurns(p, w, loads, xs) == if v.exited then v else AfterTurn(p, v, loads[l].0, loads[l].1, xs[l])
  {
    hide AfterTurn, ForTurn;
    v := AfterTurns(p, w, loads[..|loads| - 1], xs[..|loads| - 1]);
  }

  lemma NoTurns(p: Setup, w: Workers, loads: seq<(int, int)>, xs: seq<Seen>)
    requires loads == [] && xs == []
    ensures ForTurns(xs, |w.slots|) && AfterTurns(p, w, loads, xs) == w
  {
  }

  lemma {:induction false} RunStaysProper(p: Setup, w: Workers, loads: seq<(int, int)>, xs: seq<Seen>)
    requires ProperPool(p, w) && |loads| == |xs| && ForTurns(xs, |w.slots|)
    ensures ProperPool(p, AfterTurns(p, w, loads, xs))
  {
    if loads != [] {
      hide ProperPool, AfterTurn, AfterTurns, ForTurn, ForTurns;
      var l := |loads| - 1;
      var v := RunMore(p, w, loads, xs);
      RunStaysProper(p, w, loads[..l], xs[..l]);
      if !v.exited { TurnKeepsProper(p, v, loads[l].0, loads[l].1, xs[l]); }
    }
  }

  /** So after every turn of every run: a fixed pool with restarting on has all its workers and an
      adaptive one at least its minimum, if the starts of that turn succeed, unless a stop is in force or
      the process has quit. */
  lemma {:induction false} RunKeepsMinimum(p: Setup, w: Workers, loads: seq<(int, int)>, xs: seq<Seen>)
    requires ProperPool(p, w) && |loads| == |xs| > 0 && ForTurns(xs, |w.slots|)
    requires p.restart && StartsSucceed(xs[|xs| - 1])
    ensures var v := AfterTurns(p, w, loads, xs);
      v.stopped || v.exited || Tracked(v.slots) >= p.config.min
  {
    hide ProperPool, AfterTurn, Tracked, AfterTurns, ForTurn, ForTurns;
    var l := |loads| - 1;
    var v := RunMore(p, w, loads, xs);
    RunStaysProper(p, w, loads[..l], xs[..l]);
    if !v.exited { TurnLeavesMinimum(p, v, loads[l].0, loads[l].1, xs[l]); }
  }

  /** A stop leaves no worker, and none comes back, whatever is found, until a later start or restart. */
  lemma {:induction false} StopStaysInForce(p: Setup, w: Workers, loads: seq<(int, int)>, xs: seq<Seen>, k: nat)
    requires ProperPool(p, w) && |loads| == |xs| && ForTurns(xs, |w.slots|)
    requires k < |loads| && loads[k] == (COMMAND, STOP) && !AfterTurns(p, w, loads[..k], xs[..k]).exited
    requires forall i :: k < i < |loads| ==> loads[i] != (COMMAND, START) && loads[i] != (COMMAND, RESTART)
    ensures var v := AfterTurns(p, w, loads, xs); v.stopped && Tracked(v.slots) == 0
  {
    hide ProperPool, AfterTurn, AfterTurns, ForTurn, ForTurns, Tracked;
    var l := |loads| - 1;
    var v := RunMore(p, w, loads, xs);
    RunStaysProper(p, w, loads[..l], xs[..l]);
    if !v.exited { CommandsCarriedOut(p, v, loads[l].0, loads[l].1, xs[l]); }
    if k < l {
      assert loads[..l][..k] == loads[..k] && xs[..l][..k] == xs[..k];
      StopStaysInForce(p, w, loads[..l], xs[..l], k);
      if !v.exited { StoppedStays(p, v, loads[l].0, loads[l].1, xs[l]); }
    }
  }

  lemma {:induction false} StoppedStays(p: Setup, w: Workers, command: int, data1: int, x: Seen)
    requires ProperPool(p, w) && ForTurn(x, |w.slots|) && w.stopped && !w.exited
    requires (command, data1) != (COMMAND, START) && (command, data1) != (COMMAND, RESTART)
    ensures var v := AfterTurn(p, w, command, data1, x); v.stopped && Tracked(v.slots) == 0
  {
    EmptyTracksNone(|w.slots|);
  }

  /** The process ends with the first quit that waits for it, and never otherwise. */
  lemma {:induction false} OnlyQuitEnds(p: Setup, w: Workers, loads: seq<(int, int)>, xs: seq<Seen>)
    requires ProperPool(p, w) && !w.exited && |loads| == |xs| && ForTurns(xs, |w.slots|)
    ensures AfterTurns(p, w, loads, xs).exited <==> exists i :: 0 <= i < |loads| && loads[i] == (COMMAND, QUIT)
  {
    hide ProperPool, AfterTurn, AfterTurns, ForTurn, ForTurns;
    if loads != [] {
      var l := |loads| - 1;
      var v := RunMore(p, w, loads, xs);
      OnlyQuitEnds(p, w, loads[..l], xs[..l]);
      RunStaysProper(p, w, loads[..l], xs[..l]);
      if v.exited {
        var i :| 0 <= i < l && loads[..l][i] == (COMMAND, QUIT);
        assert loads[i] == (COMMAND, QUIT);
      } else {
        CommandsCarriedOut(p, v, loads[l].0, loads[l].1, xs[l]);
        assert forall i :: 0 <= i < l ==> loads[i] == loads[..l][i];
      }
    } else {
      NoTurns(p, w, loads, xs);
    }
  }

  /** All turns find three busy looks, no ended worker and no changed program, and their starts succeed. */
  ghost predicate BusyRun(p: Setup, loads: seq<(int, int)>, xs: seq<Seen>)
    requires |loads| == |xs|
  {
    forall i :: 0 <= i < |xs| ==>
      && Undisturbed(loads[i].0, loads[i].1) && Busy3(xs[i]) && AllCalm(xs[i]) && !(p.reload && xs[i].changed)
      && AllStart(xs[i].extra.started) && AllStart(xs[i].kept.started)
  }

  lemma BusyFront(p: Setup, loads: seq<(int, int)>, xs: seq<Seen>)
    requires |loads| == |xs| > 0 && BusyRun(p, loads, xs)
    ensures var l := |xs| - 1;
      && BusyRun(p, loads[..l], xs[..l])
      && Undisturbed(loads[l].0, loads[l].1) && Busy3(xs[l]) && AllCalm(xs[l]) && !(p.reload && xs[l].changed)
      && AllStart(xs[l].extra.started) && AllStart(xs[l].kept.started)
  {
  }

  /** Of busy turns in a row each adds one worker, until one slot is left. */
  lemma {:induction false} BusyTurnsGrow(p: Setup, w: Workers, loads: seq<(int, int)>, xs: seq<Seen>)
    requires ProperPool(p, w) && |loads| == |xs| && ForTurns(xs, |w.slots|) && BusyRun(p, loads, xs)
    requires p.config.adapt && !w.stopped && !w.exited && Tracked(w.slots) >= p.config.min
    ensures var v := AfterTurns(p, w, loads, xs);
      && !v.stopped && !v.exited && p.config.min <= Tracked(v.slots) < p.config.slots
      && Tracked(v.slots) == Min(p.config.slots - 1, Tracked(w.slots) + |xs|)
  {
    hide AfterTurn, AfterTurns, ForTurn, ForTurns, Tracked, BusyRun, Undisturbed, AllCalm, AllStart, Slots;
    if loads != [] {
      var l := |loads| - 1;
      var v := RunMore(p, w, loads, xs);
      BusyFront(p, loads, xs);
      BusyTurnsGrow(p, w, loads[..l], xs[..l]);
      RunStaysProper(p, w, loads[..l], xs[..l]);
      BusyTurnAddsOne(p, v, loads[l].0, loads[l].1, xs[l]);
      CommandsCarriedOut(p, v, loads[l].0, loads[l].1, xs[l]);
    } else {
      NoTurns(p, w, loads, xs);
    }
  }

  /** All turns are quiet and calm, with no command that concerns the workers and no changed program. */
  ghost predicate QuietRun(p: Setup, loads: seq<(int, int)>, xs: seq<Seen>)
    requires |loads| == |xs|
  {
    forall i :: 0 <= i < |xs| ==>
      Undisturbed(loads[i].0, loads[i].1) && Quiet(xs[i]) && AllCalm(xs[i]) && !(p.reload && xs[i].changed)
  }

  lemma QuietFront(p: Setup, loads: seq<(int, int)>, xs: seq<Seen>)
    requires |loads| == |xs| > 0 && QuietRun(p, loads, xs)
    ensures var l := |xs| - 1;
      && QuietRun(p, loads[..l], xs[..l])
      && Undisturbed(loads[l].0, loads[l].1) && Quiet(xs[l]) && AllCalm(xs[l]) && !(p.reload && xs[l].changed)
  {
  }

  /** One quiet turn more, when t workers were there at first, q were due to be trimmed since and r quiet
      turns have passed since then. */
  lemma {:induction false} QuietTurn(p: Setup, v: Workers, load: (int, int), x: Seen, t: nat, q: nat, r: nat)
    requires ProperPool(p, v) && ForTurn(x, |v.slots|) && p.config.adapt && !v.stopped && !v.exited
    requires Undisturbed(load.0, load.1) && Quiet(x) && AllCalm(x) && !(p.reload && x.changed)
    requires v.nspike == r < p.spikes && t >= p.config.min && Tracked(v.slots) == Max(p.config.min, t - q)
    ensures var u, last := AfterTurn(p, v, load.0, load.1, x), r + 1 == p.spikes;
      && !u.stopped && !u.exited && u.nspike == (if last then 0 else r + 1)
      && Tracked(u.slots) == Max(p.config.min, t - if last then q + 1 else q)
  {
    hide ProperPool, AfterTurn, Tracked;
    IdleTurnTrims(p, v, load.0, load.1, x);
    CommandsCarriedOut(p, v, load.0, load.1, x);
  }

  /** The full periods in n quiet turns, and the turns behind them. */
  function Rounds(n: nat, period: int): nat
    requires period > 0
  {
    n / period
  }

  function Remaining(n: nat, period: int): (r: nat)
    requires period > 0
    ensures r < period
  {
    n % period
  }

  /** Of quiet turns in a row, each as many as the period trims one worker, until the minimum is left. */
  lemma {:induction false} QuietTurnsTrimOne(p: Setup, w: Workers, loads: seq<(int, int)>, xs: seq<Seen>)
    requires ProperPool(p, w) && |loads| == |xs| && ForTurns(xs, |w.slots|) && QuietRun(p, loads, xs)
    requires p.config.adapt && !w.stopped && !w.exited && w.nspike == 0 && p.spikes > 0
    requires Tracked(w.slots) >= p.config.min
    ensures var v, n := AfterTurns(p, w, loads, xs), |xs|;
      && !v.stopped && !v.exited && v.nspike == Remaining(n, p.spikes)
      && Tracked(v.slots) == Max(p.config.min, Tracked(w.slots) - Rounds(n, p.spikes))
  {
    hide ProperPool, AfterTurn, AfterTurns, ForTurn, ForTurns, Tracked, QuietRun, Undisturbed, AllCalm, Rounds, Remaining;
    if loads != [] {
      var l := |loads| - 1;
      var v := RunMore(p, w, loads, xs);
      QuietFront(p, loads, xs);
      QuietTurnsTrimOne(p, w, loads[..l], xs[..l]);
      RunStaysProper(p, w, loads[..l], xs[..l]);
      QuietTurn(p, v, loads[l], xs[l], Tracked(w.slots), Rounds(l, p.spikes), Remaining(l, p.spikes));
      NextQuotient(l, p.spikes);
    } else {
      NoTurns(p, w, loads, xs);
      ZeroQuotient(p.spikes);
    }
  }

  lemma ZeroQuotient(k: int)
    requires k > 0
    ensures Rounds(0, k) == 0 && Remaining(0, k) == 0
  {
  }

  lemma ProductBounds(d: int, k: int)
    requires k > 0
    ensures d > 0 ==> d * k >= k
    ensures d < 0 ==> d * k <= -k
  {
  }

  lemma QuotientIs(n: nat, k: int, q: nat, r: nat)
    requires r < k && n == q * k + r
    ensures n / k == q && n % k == r
  {
    var d := n / k - q;
    assert d * k == r - n % k;
    ProductBounds(d, k);
  }

  lemma NextQuotient(n: nat, k: int)
    requires k > 0
    ensures var last := Remaining(n, k) + 1 == k;
      && Rounds(n + 1, k) == Rounds(n, k) + (if last then 1 else 0)
      && Remaining(n + 1, k) == if last then 0 else Remaining(n, k) + 1
  {
    var q, r := n / k, n % k;
    assert n == q * k + r;
    if r + 1 == k {
      assert n + 1 == (q + 1) * k;
      QuotientIs(n + 1, k, q + 1, 0);
    } else {
      QuotientIs(n + 1, k, q, r + 1);
    }
  }
}
