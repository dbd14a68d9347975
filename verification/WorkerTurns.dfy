/** mrim.c: what one turn of the resident loop makes of the workers, for all that it finds, and what
    follows for turns and for whole runs. */
module WorkerTurns {
  import opened Bytes
  import opened Handshake
  import opened WorkerSlots

  /** The options in force; spikes is how many quiet turns pass before a worker is trimmed. Without
      restart dead workers stay away, without reload a changed program restarts nothing. */
  datatype Setup = Setup(config: Config, restart: bool, reload: bool, spikes: int)

  datatype Workers = Workers(slots: seq<int>, nspike: int, stopped: bool, exited: bool)

  /** What a turn finds: up to three looks at waiting connections, the count after them, what the
      passes find and whether the program has changed. */
  datatype Seen = Seen(busy1: bool, busy2: bool, busy3: bool, now: seq<Waited>, extra: Found, kept: Found,
                       changed: bool, again: Found, onCommand: Found)

  predicate ForTurn(x: Seen, n: nat) {
    |x.now| == n && ForSlots(x.extra, n) && ForSlots(x.kept, n) && ForSlots(x.again, n) && ForSlots(x.onCommand, n)
  }

  function Empty(n: nat): (s: seq<int>)
    ensures |s| == n && forall i :: 0 <= i < n ==> s[i] == VACANT
  {
    seq(n, _ => VACANT)
  }

  // ---------- what a turn does ----------

  /** processup. */
  function Pass(c: Config, addone: bool, s: seq<int>, x: Found): (t: seq<int>)
    requires ForSlots(x, |s|)
    ensures |t| == |s|
  {
    var s0 := if c.adapt then Scan(s, x.counted) else s;
    var r := Scan(s0, x.waited);
    seq(|s|, i requires 0 <= i < |s| => SlotAfter(c, addone, s0, r, x.started, i))
  }

  predicate Busy3(x: Seen) {
    x.busy1 && x.busy2 && x.busy3
  }

  predicate Quiet(x: Seen) {
    !x.busy1 && !x.busy2 && !x.busy3
  }

  /** The load-driven part. */
  function Adapted(p: Setup, w: Workers, x: Seen): (v: Workers)
    requires ForTurn(x, |w.slots|)
    ensures |v.slots| == |w.slots|
  {
    ClearFirstTracks(Scan(w.slots, x.now));
    var r := Scan(w.slots, x.now);
    if Busy3(x) then
      w.(slots := if Tracked(r) < p.config.slots - 1 then Pass(p.config, true, r, x.extra) else r, nspike := 0)
    else if x.busy1 then w.(nspike := 0)
    else if Quiet(x) && w.nspike + 1 >= p.spikes then
      w.(slots := if Tracked(r) > p.config.min then ClearFirst(r) else r, nspike := 0)
    else if Quiet(x) then w.(nspike := w.nspike + 1)
    else w
  }

  /** The turn as far as checkshm. */
  function Attended(p: Setup, w: Workers, x: Seen): (v: Workers)
    requires ForTurn(x, |w.slots|)
    ensures |v.slots| == |w.slots| && v.stopped == w.stopped && v.exited == w.exited
  {
    if w.stopped then w
    else
      var a := if p.config.adapt then Adapted(p, w, x) else w;
      var b := if p.config.adapt then a.(slots := Pass(p.config, false, a.slots, x.kept)) else a;
      if !p.restart then b
      else b.(slots := Pass(p.config, false, if p.reload && x.changed then Empty(|b.slots|) else b.slots, x.again))
  }

  /** checkshm. */
  function Commanded(p: Setup, w: Workers, command: int, data1: int, x: Found): (v: Workers)
    requires ForSlots(x, |w.slots|)
    ensures |v.slots| == |w.slots|
  {
    if command != COMMAND then w
    else if data1 == RESTART then w.(slots := Pass(p.config, false, Empty(|w.slots|), x), stopped := false)
    else if data1 == START then w.(slots := Pass(p.config, false, w.slots, x), stopped := false)
    else if data1 == STOP then w.(slots := Empty(|w.slots|), stopped := true)
    else if data1 == QUIT then w.(slots := Empty(|w.slots|), exited := true)
    else w
  }

  function AfterTurn(p: Setup, w: Workers, command: int, data1: int, x: Seen): (v: Workers)
    requires ForTurn(x, |w.slots|)
    ensures |v.slots| == |w.slots|
  {
    Commanded(p, Attended(p, w, x), command, data1, x.onCommand)
  }

  predicate ForTurns(xs: seq<Seen>, n: nat) {
    forall i :: 0 <= i < |xs| ==> ForTurn(xs[i], n)
  }

  /** After all turns up to the one that carries out a quit. */
  function AfterTurns(p: Setup, w: Workers, loads: seq<(int, int)>, xs: seq<Seen>): (v: Workers)
    requires |loads| == |xs| && ForTurns(xs, |w.slots|)
    ensures |v.slots| == |w.slots|
  {
    if loads == [] then w
    else
      var l := |loads| - 1;
      var v := AfterTurns(p, w, loads[..l], xs[..l]);
      if v.exited then v else AfterTurn(p, v, loads[l].0, loads[l].1, xs[l])
  }

  // ---------- what every turn keeps ----------

  /** An adaptive pool never tracks more than max - 1 workers, and while restarting is off, or after a
      quit, there are none. */
  ghost predicate ProperPool(p: Setup, w: Workers) {
    && Proper(p.config) && |w.slots| == p.config.slots && Slots(w.slots)
    && (p.config.adapt ==> p.restart && Tracked(w.slots) <= p.config.slots - 1)
    && (w.stopped || w.exited ==> Tracked(w.slots) == 0)
  }

  lemma EmptyTracksNone(n: nat)
    ensures Tracked(Empty(n)) == 0 && Slots(Empty(n))
  {
    TrackedNone(Empty(n));
  }

  lemma ScanSlots(s: seq<int>, w: seq<Waited>)
    requires |s| == |w| && Slots(s)
    ensures Slots(Scan(s, w)) && Tracked(Scan(s, w)) <= Tracked(s)
  {
    ScanTracks(s, w);
  }

  lemma PassIsRefilled(c: Config, addone: bool, s: seq<int>, x: Found, t: seq<int>)
    requires ForSlots(x, |s|)
    ensures var s0 := if c.adapt then Scan(s, x.counted) else s;
      Refilled(c, addone, s0, x.waited, x.started, t) <==> t == Pass(c, addone, s, x)
  {
    hide Free, Tracked, SlotAfter, Scan;
    var u := Pass(c, addone, s, x);
    if Refilled(c, addone, if c.adapt then Scan(s, x.counted) else s, x.waited, x.started, t) {
      assert forall i :: 0 <= i < |u| ==> u[i] == t[i];
    }
  }

  lemma {:induction false} PassBounds(c: Config, addone: bool, s: seq<int>, x: Found)
    requires ForSlots(x, |s|) && Proper(c) && |s| == c.slots && Slots(s) && (addone ==> c.adapt)
    ensures var t := Pass(c, addone, s, x);
      && Slots(t)
      && (addone ==> Tracked(t) <= Tracked(s) + 1)
      && (c.adapt && !addone ==> Tracked(t) <= Max(Tracked(s), c.min))
      && (Tracked(s) == 0 && !addone ==> StartedOnly(x.started, c.min, t))
  {
    hide Tracked, Refilled, Pass, Scan;
    PassIsRefilled(c, addone, s, x, Pass(c, addone, s, x));
    ScanSlots(s, x.counted);
    RefilledBounds(c, addone, if c.adapt then Scan(s, x.counted) else s, x, Pass(c, addone, s, x));
  }

  lemma {:induction false} AdaptedBounds(p: Setup, w: Workers, x: Seen)
    requires ProperPool(p, w) && ForTurn(x, |w.slots|) && p.config.adapt && !w.stopped && !w.exited
    ensures var v := Adapted(p, w, x);
      && ProperPool(p, v)
      && Tracked(v.slots) <= Tracked(w.slots) + if Busy3(x) then 1 else 0
  {
    hide Tracked, Pass, Scan, ClearFirst, Slots;
    ScanSlots(w.slots, x.now);
    var r := Scan(w.slots, x.now);
    PassBounds(p.config, true, r, x.extra);
    ClearFirstTracks(r);
    ClearFirstSlots(r);
  }

  lemma {:induction false} ClearFirstSlots(s: seq<int>)
    requires Slots(s)
    ensures Slots(ClearFirst(s))
  {
    if s != [] { ClearFirstSlots(s[1..]); }
  }

  lemma {:induction false} AttendedProper(p: Setup, w: Workers, x: Seen)
    requires ProperPool(p, w) && ForTurn(x, |w.slots|) && !w.exited
    ensures var v := Attended(p, w, x);
      && ProperPool(p, v)
      && (p.config.adapt && !w.stopped ==>
            Tracked(v.slots) <= Max(Tracked(w.slots) + (if Busy3(x) then 1 else 0), p.config.min))
  {
    hide Tracked, Pass, Adapted, Slots, Busy3;
    if !w.stopped {
      var c := p.config;
      var a := if c.adapt then Adapted(p, w, x) else w;
      if c.adapt {
        AdaptedBounds(p, w, x);
        PassBounds(c, false, a.slots, x.kept);
      }
      var b := if c.adapt then a.(slots := Pass(c, false, a.slots, x.kept)) else a;
      EmptyTracksNone(|b.slots|);
      PassBounds(c, false, if p.reload && x.changed then Empty(|b.slots|) else b.slots, x.again);
    }
  }

  lemma {:induction false} CommandedProper(p: Setup, w: Workers, command: int, data1: int, x: Found)
    requires ProperPool(p, w) && ForSlots(x, |w.slots|) && !w.exited
    ensures ProperPool(p, Commanded(p, w, command, data1, x))
  {
    hide Tracked, Pass, Slots;
    EmptyTracksNone(|w.slots|);
    PassBounds(p.config, false, w.slots, x);
    PassBounds(p.config, false, Empty(|w.slots|), x);
  }

  /** Every turn keeps the pool within its bounds, whatever it finds. */
  lemma {:induction false} TurnKeepsProper(p: Setup, w: Workers, command: int, data1: int, x: Seen)
    requires ProperPool(p, w) && ForTurn(x, |w.slots|) && !w.exited
    ensures ProperPool(p, AfterTurn(p, w, command, data1, x))
  {
    hide ProperPool, Attended, Commanded;
    AttendedProper(p, w, x);
    CommandedProper(p, Attended(p, w, x), command, data1, x.onCommand);
  }
}
