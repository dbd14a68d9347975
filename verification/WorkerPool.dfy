/** mrim.c: the resident process and the worker processes that it keeps. */
module WorkerPool {
  import opened Bytes
  import opened Handshake
  import opened WorkerSlots
  import opened WorkerTurns

  datatype Signal = SigQuit | SigStop | SigStopOne

  class Pool {
    const config: Config
    /** Whether -n and -g were left out: dead workers restart, and so do all when the program changes. */
    const restart: bool
    const reload: bool
    /** How many quiet turns pass before a worker is trimmed. */
    const spikes: int
    var plist: array<int>
    var tempNoRestart: bool
    var nspike: int
    var exited: bool

    ghost function Options(): Setup {
      Setup(config, restart, reload, spikes)
    }

    ghost function State(): Workers
      reads this, plist
    {
      Workers(plist[..], nspike, tempNoRestart, exited)
    }

    /** What every step keeps: the pool is within its bounds. */
    ghost predicate Valid()
      reads this, plist
    {
      ProperPool(Options(), State())
    }

    /** main up to the resident loop: the first workers are started, as far as they start. */
    constructor (c: Config, dnr: bool, modreload: bool, period: int, f: seq<int>)
      requires Proper(c) && |f| == c.slots && Slots(f)
      ensures Valid() && fresh(plist)
      ensures Options() == Setup(c, c.adapt || !dnr, modreload, period)
      ensures StartedOnly(f, c.min, plist[..]) && !exited && !tempNoRestart && nspike == 0
    {
      config := c;
      restart := c.adapt || !dnr;
      reload := modreload;
      spikes := period;
      tempNoRestart := false;
      nspike := 0;
      exited := false;
      plist := new int[c.slots](_ => VACANT);
      new;
      var pcount := 0;
      while pcount < c.min
        invariant 0 <= pcount <= c.min && fresh(plist) && plist.Length == c.slots
        invariant StartedOnly(f, pcount, plist[..])
        invariant !exited && !tempNoRestart && nspike == 0
      {
        StartChild(pcount, f[pcount]);
        pcount := pcount + 1;
      }
      StartedOnlyTracks(f, c.min, plist[..]);
      assert forall i :: 0 <= i < plist.Length ==> plist[i] == plist[..][i];
    }

    /** start_child in the parent: some new process takes the slot, unless the program is missing or
        stays inaccessible. */
    method StartChild(slot: nat, outcome: int)
      requires slot < plist.Length && (outcome == VACANT || outcome > 1)
      modifies plist
      ensures plist[..] == if outcome == VACANT then old(plist[..]) else old(plist[..])[slot := outcome]
    {
      if outcome == VACANT { return; }
      plist[slot] := outcome;
    }

    method Vacate(slot: nat)
      requires slot < plist.Length && plist[slot] != VACANT
      modifies plist
      ensures plist[..] == old(plist[..])[slot := VACANT]
      ensures Tracked(plist[..]) == old(Tracked(plist[..])) - 1
    {
      TrackedSet(plist[..], slot, VACANT);
      plist[slot] := VACANT;
    }

    /** whatisprocess, for what waitpid answers. */
    method WhatIsProcess(p: int, w: Waited) returns (r: int)
      requires p > 1
      ensures r == if Ended(w) then -1 else if w.Unchanged? then p else -p
    {
      match w
      case Unchanged => return p;
      case Changed(ended) => if ended { return -1; } else { return -p; }
      case Failed => return -1;
    }

    /** handlestop. Whether a process still runs or not, its slot is given up. */
    method HandleStop(sig: Signal)
      requires Slots(plist[..])
      modifies this`exited, plist
      ensures exited == (old(exited) || sig.SigQuit?)
      ensures plist[..] == if sig.SigStopOne? then ClearFirst(old(plist[..])) else Empty(plist.Length)
    {
      var i := 0;
      ghost var was := plist[..];
      while i < plist.Length
        invariant 0 <= i <= plist.Length && exited == old(exited)
        invariant forall j :: 0 <= j < i ==> plist[j] == VACANT
        invariant forall j :: i <= j < plist.Length ==> plist[j] == was[j]
        invariant sig.SigStopOne? ==> plist[..] == was
      {
        if plist[i] != VACANT {
          var w: Waited := *;
          var p := WhatIsProcess(plist[i], w);
          Vacate(i);
          if sig.SigStopOne? {
            ClearFirstAt(was, i);
            return;
          }
        }
        i := i + 1;
      }
      if sig.SigStopOne? { ClearFirstNone(was); }
      if sig.SigQuit? { exited := true; }
    }

    /** totprocess: the processes that have ended are dropped, and the others counted. */
    method TotProcess(w: seq<Waited>) returns (tot: nat)
      requires Slots(plist[..]) && |w| == plist.Length
      modifies plist
      ensures plist[..] == Scan(old(plist[..]), w) && tot == Tracked(plist[..])
    {
      var i := 0;
      tot := 0;
      ghost var was := plist[..];
      while i < plist.Length
        invariant 0 <= i <= plist.Length && tot == Tracked(plist[..i])
        invariant forall j :: 0 <= j < i ==> plist[j] == if Ended(w[j]) then VACANT else was[j]
        invariant forall j :: i <= j < plist.Length ==> plist[j] == was[j]
      {
        ghost var before := plist[..i];
        if plist[i] != VACANT {
          var p := WhatIsProcess(plist[i], w[i]);
          if p == -1 {
            Vacate(i);
          } else {
            tot := tot + 1;
          }
        }
        assert plist[..i] == before;
        assert plist[..i + 1][..i] == before;
        i := i + 1;
      }
      assert plist[..i] == plist[..];
      assert plist[..] == Scan(was, w);
    }

    /** One slot of processup: a start is tried in a vacant one, or in one whose process has ended, if
        a worker is wanted. It says whether one was tried. */
    method Refill(slot: nat, wanted: bool, w: Waited, outcome: int) returns (tried: bool)
      requires slot < plist.Length && (plist[slot] == VACANT || plist[slot] > 1) && (outcome == VACANT || outcome > 1)
      modifies plist
      ensures tried == (wanted && (old(plist[slot]) == VACANT || Ended(w)))
      ensures plist[..] == old(plist[..])[slot :=
        if tried then outcome else if Ended(w) then VACANT else old(plist[slot])]
    {
      tried := false;
      if plist[slot] == VACANT {
        if wanted {
          StartChild(slot, outcome);
          tried := true;
        }
      } else {
        var p := WhatIsProcess(plist[slot], w);
        if p == -1 {
          Vacate(slot);
          if wanted {
            StartChild(slot, outcome);
            tried := true;
          }
        }
      }
    }

    /** The loop of processup. */
    method RefillAll(addone: bool, tot0: nat, x: Found)
      requires plist.Length == config.slots && ForSlots(x, plist.Length) && (addone ==> config.adapt)
      requires config.adapt ==> tot0 == Tracked(plist[..])
      requires Slots(plist[..])
      modifies plist
      ensures Refilled(config, addone, old(plist[..]), x.waited, x.started, plist[..])
    {
      hide Tracked, Scan, Refilled, Progress, SlotAfter, Free;
      var tot: nat := tot0;
      ghost var s := plist[..];
      ProgressStarts(config, addone, s, x, tot0);
      var i := 0;
      while i < plist.Length
        invariant 0 <= i <= plist.Length && Progress(config, addone, s, x, plist[..], i, tot0, tot)
        invariant forall j :: i <= j < plist.Length ==> plist[j] == s[j]
      {
        ghost var cur := plist[..];
        assert plist[i] == s[i];
        var tried := Refill(i, !config.adapt || config.min > tot || addone, x.waited[i], x.started[i]);
        ProgressStep(config, addone, s, x, cur, i, tot0, tot, plist[..], tried);
        if tried {
          tot := tot + 1;
          if addone { return; }
        }
        i := i + 1;
      }
      ProgressDone(config, addone, s, x, plist[..], tot0, tot);
    }

    /** processup, for all that it finds. */
    method ProcessUp(addone: bool, x: Found)
      requires plist.Length == config.slots && ForSlots(x, plist.Length) && Slots(plist[..])
      requires addone ==> config.adapt
      modifies plist
      ensures plist[..] == Pass(config, addone, old(plist[..]), x)
    {
      hide Tracked, Scan, Refilled, Pass;
      var tot: nat := 0;
      ghost var s := plist[..];
      ScanSlots(s, x.counted);
      if config.adapt { tot := TotProcess(x.counted); }
      RefillAll(addone, tot, x);
      PassIsRefilled(config, addone, s, x, plist[..]);
    }

    /** The load-driven part of the loop, for what up to three looks at the connections and the
        counts of processes find. */
    method Adapt(x: Seen)
      requires Valid() && config.adapt && !tempNoRestart && !exited && ForTurn(x, plist.Length)
      modifies this`nspike, this`exited, plist
      ensures Valid() && State() == Adapted(Options(), old(State()), x)
    {
      hide Tracked, Scan, Pass, ClearFirst;
      ghost var was := State();
      AdaptedBounds(Options(), was, x);
      ScanSlots(was.slots, x.now);
      if x.busy1 {
        nspike := 0;
        if x.busy2 && x.busy3 {
          var tot := TotProcess(x.now);
          if tot < config.slots - 1 { ProcessUp(true, x.extra); }
        }
      } else if !x.busy2 && !x.busy3 {
        nspike := nspike + 1;
        if nspike >= spikes {
          var tot := TotProcess(x.now);
          if tot > config.min { HandleStop(SigStopOne); }
          nspike := 0;
        }
      }
      assert State() == Adapted(Options(), was, x);
    }

    /** checkshm, for the values of command and data1 it has loaded and what a processup finds. The
        actions it takes are the program that the client's side relies on. */
    method CheckShm(command: int, data1: int, x: Found) returns (acts: seq<Act>)
      requires Valid() && !exited && ForSlots(x, plist.Length)
      modifies this`tempNoRestart, this`exited, plist
      ensures Valid() && State() == Commanded(Options(), old(State()), command, data1, x)
      ensures Answer(command, data1, acts)
      ensures acts == if command == COMMAND then Program(data1) else []
    {
      hide Pass, Tracked;
      ghost var was := State();
      CommandedProper(Options(), was, command, data1, x);
      EmptyTracksNone(plist.Length);
      acts := [];
      if command == COMMAND {
        if data1 == RESTART {
          tempNoRestart := false;
          HandleStop(SigStop);
          ProcessUp(false, x);
          acts := [Execute(RESTART), StoreCommand(DONE)];
        } else if data1 == START {
          tempNoRestart := false;
          ProcessUp(false, x);
          acts := [Execute(START), StoreCommand(DONE)];
        } else if data1 == STATUS {
          acts := [Execute(STATUS), StoreData(OKAY), StoreCommand(DONE)];
        } else if data1 == OKAY_STARTED || data1 == OKAY_RUNNING {
          return;
        } else if data1 == STOP {
          HandleStop(SigStop);
          tempNoRestart := true;
          acts := [Execute(STOP), StoreCommand(DONE)];
        } else if data1 == QUIT {
          acts := [StoreCommand(DONE), Execute(QUIT)];
          HandleStop(SigQuit);
        } else {
          acts := [StoreCommand(DONEBAD)];
        }
      }
      assert State() == Commanded(Options(), was, command, data1, x);
    }

    /** One turn of the resident loop, for the values of the cells it loads and all that it finds. */
    method Turn(command: int, data1: int, x: Seen) returns (acts: seq<Act>)
      requires Valid() && !exited && ForTurn(x, plist.Length)
      modifies this`tempNoRestart, this`exited, this`nspike, plist
      ensures Valid() && State() == AfterTurn(Options(), old(State()), command, data1, x)
      ensures Answer(command, data1, acts)
      ensures acts == if command == COMMAND then Program(data1) else []
    {
      hide Pass, Tracked, Commanded, Adapted;
      ghost var was := State();
      AttendedProper(Options(), was, x);
      if config.adapt && !tempNoRestart {
        Adapt(x);
        PassBounds(config, false, plist[..], x.kept);
        ProcessUp(false, x.kept);
      }
      if !tempNoRestart && restart {
        if reload && x.changed { HandleStop(SigStop); }
        ProcessUp(false, x.again);
      }
      assert State() == Attended(Options(), was, x);
      acts := CheckShm(command, data1, x.onCommand);
    }

    /** The resident loop, for the values it loads from the cells and all that it finds turn by turn. It
        ends with the turn that carries out a quit. */
    method Resident(loads: seq<(int, int)>, xs: seq<Seen>) returns (turns: nat, log: seq<seq<Act>>)
      requires Valid() && !exited && |loads| == |xs| && ForTurns(xs, plist.Length)
      modifies this`tempNoRestart, this`exited, this`nspike, plist
      ensures Valid() && State() == AfterTurns(Options(), old(State()), loads, xs)
      ensures turns == |log| <= |loads| && (turns < |loads| ==> exited)
      ensures forall i :: 0 <= i < turns ==>
                && Answer(loads[i].0, loads[i].1, log[i])
                && log[i] == if loads[i].0 == COMMAND then Program(loads[i].1) else []
    {
      hide AfterTurn, ProperPool, Answer, ForTurn;
      turns, log := 0, [];
      while turns < |loads| && !exited
        invariant Valid() && turns == |log| <= |loads|
        invariant ForTurns(xs[..turns], plist.Length) && |loads[..turns]| == |xs[..turns]|
        invariant State() == AfterTurns(Options(), old(State()), loads[..turns], xs[..turns])
        invariant forall i :: 0 <= i < turns ==>
                && Answer(loads[i].0, loads[i].1, log[i])
                && log[i] == if loads[i].0 == COMMAND then Program(loads[i].1) else []
      {
        var acts := Turn(loads[turns].0, loads[turns].1, xs[turns]);
        assert loads[..turns + 1][..turns] == loads[..turns] && xs[..turns + 1][..turns] == xs[..turns];
        log := log + [acts];
        turns := turns + 1;
      }
      ExitedStays(Options(), old(State()), loads, xs, turns);
    }
  }

  /** After a quit the run goes no further. */
  lemma {:induction false} ExitedStays(p: Setup, w: Workers, loads: seq<(int, int)>, xs: seq<Seen>, k: nat)
    requires |loads| == |xs| && ForTurns(xs, |w.slots|) && k <= |loads|
    requires k < |loads| ==> AfterTurns(p, w, loads[..k], xs[..k]).exited
    ensures AfterTurns(p, w, loads, xs) == AfterTurns(p, w, loads[..k], xs[..k])
  {
    hide AfterTurn, ForTurn;
    var l := |loads| - 1;
    if k <= l {
      assert loads[..l][..k] == loads[..k] && xs[..l][..k] == xs[..k];
      ExitedStays(p, w, loads[..l], xs[..l], k);
    } else {
      assert loads[..k] == loads && xs[..k] == xs;
    }
  }
}
