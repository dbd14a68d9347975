/** mrim.c: the two shared cells through which a client gives the resident process a command. Both
    sides are programs of single loads and single stores, in any interleaving. */
module Handshake {
  // Message codes, mrim.c:58-73.
  const OKAY := 0
  const START := 1
  const STOP := 2
  const RESTART := 3
  const QUIT := 4
  const OKAY_STARTED := 5
  const OKAY_RUNNING := 6
  const STATUS := 7
  const COMMAND := 9
  const DONE := 10
  const DONEBAD := 11
  const DONESTARTUP := 12

  predicate Request(c: int) {
    c == START || c == STOP || c == RESTART || c == QUIT || c == STATUS
  }

  /** One action of the resident process on a command it has taken. */
  datatype Act = Execute(c: int) | StoreData(v: int) | StoreCommand(v: int)

  /** checkshm in the resident process: what is done for a value of data1. The reply to a quit goes
      out before it is carried out. */
  function Program(data1: int): seq<Act> {
    if data1 == RESTART || data1 == START || data1 == STOP then [Execute(data1), StoreCommand(DONE)]
    else if data1 == STATUS then [Execute(STATUS), StoreData(OKAY), StoreCommand(DONE)]
    else if data1 == OKAY_STARTED || data1 == OKAY_RUNNING then []
    else if data1 == QUIT then [StoreCommand(DONE), Execute(QUIT)]
    else [StoreCommand(DONEBAD)]
  }

  /** What a client may expect of the actions on the values loaded from its cells: a request is carried out
      and answered, anything else only answered, and the codes of a starting process are left alone. */
  predicate Answer(command: int, data1: int, acts: seq<Act>) {
    if command != COMMAND || data1 == OKAY_STARTED || data1 == OKAY_RUNNING then acts == []
    else if Request(data1) then
      && Execute(data1) in acts && StoreCommand(DONE) in acts
      && (forall a :: a in acts ==> a in {Execute(data1), StoreData(OKAY), StoreCommand(DONE)})
      && (StoreData(OKAY) in acts <==> data1 == STATUS)
    else acts == [StoreCommand(DONEBAD)]
  }

  /** Where the resident process is: at the load of command, at the load of data1, or with actions
      left to do. */
  datatype Server = AtTop | HasCommand(v: int) | Working(todo: seq<Act>) | Gone

  /** Where the client is in cli_getshm: about to load, store or load the cell its line names. */
  datatype Client =
    | Absent
    | Waiting(c: int)
    | Checking(c: int)
    | Writing(c: int)
    | Posting(c: int)
    | Polling(c: int)
    | HasReply(c: int, v: int)
    | GivingUp(c: int)
    | Resetting(c: int)

  datatype Event = Posted(c: int) | Executed(c: int) | Replied(c: int, v: int, d: int) | GaveUp(c: int)

  datatype State = State(command: int, data1: int, server: Server, client: Client, log: seq<Event>)

  ghost predicate Init(s: State) {
    s.command == DONESTARTUP && s.server == AtTop && s.client == Absent && s.log == []
  }

  /** One load or store of the resident process. */
  ghost predicate ServerStep(s: State, t: State) {
    match s.server
    case AtTop => t == s.(server := HasCommand(s.command))
    case HasCommand(v) => t == s.(server := if v == COMMAND then Working(Program(s.data1)) else AtTop)
    case Working(todo) =>
      if todo == [] then t == s.(server := AtTop)
      else t == Perform(s, todo[0], todo[1..])
    case Gone => false
  }

  function Perform(s: State, a: Act, rest: seq<Act>): State {
    match a
    case Execute(c) => s.(server := if c == QUIT then Gone else Working(rest), log := s.log + [Executed(c)])
    case StoreData(v) => s.(server := Working(rest), data1 := v)
    case StoreCommand(v) => s.(server := Working(rest), command := v)
  }

  /** One load or store of the client. How often it tries is left open. */
  ghost predicate ClientStep(s: State, t: State) {
    match s.client
    case Absent => exists c :: Request(c) && t == s.(client := Waiting(c))
    case Waiting(c) => t == s.(client := Checking(c)) || (s.command == COMMAND && t == s)
    case Checking(c) => t == s.(client := if s.command == COMMAND then Absent else Writing(c))
    case Writing(c) => t == s.(client := Posting(c), data1 := c)
    case Posting(c) => t == s.(client := Polling(c), command := COMMAND, log := s.log + [Posted(c)])
    case Polling(c) => t == s.(client := HasReply(c, s.command))
    case HasReply(c, v) =>
      if v != COMMAND then t == s.(client := Absent, log := s.log + [Replied(c, v, s.data1)])
      else t == s.(client := Polling(c)) || t == s.(client := GivingUp(c))
    case GivingUp(c) => t == s.(client := Resetting(c))
    case Resetting(c) => t == s.(client := Absent, command := DONE, log := s.log + [GaveUp(c)])
  }

  ghost predicate Step(s: State, t: State) {
    ServerStep(s, t) || ClientStep(s, t)
  }

  ghost predicate Run(r: seq<State>) {
    |r| > 0 && forall i :: 0 <= i < |r| - 1 ==> Step(r[i], r[i + 1])
  }

  // ---------- what a log may say ----------

  /** What the log says so far: whose command is waiting or carried out and not yet replied to, and
      whether a quit was replied to and is still to be carried out. */
  datatype Wait = Nobody | Pending(c: int) | Ran(c: int)
  datatype Leaving = Staying | Due | Left
  datatype Phase = Phase(wait: Wait, leaving: Leaving) | Broken

  /** The protocol a log must follow: a command is posted, carried out once, and then replied to
      with DONE and, for a status, OKAY in data1. A quit may be replied to first. A client that
      gives up ends its own exchange. */
  function Next(p: Phase, e: Event): Phase {
    if p.Broken? then Broken
    else
      match e
      case Posted(c) => if p.wait.Nobody? then p.(wait := Pending(c)) else Broken
      case Executed(c) =>
        if p.wait == Pending(c) && p.leaving.Staying? then Phase(Ran(c), if c == QUIT then Left else Staying)
        else if c == QUIT && p.leaving.Due? then p.(leaving := Left)
        else Broken
      case Replied(c, v, d) =>
        if v != DONE || (c == STATUS && d != OKAY) then Broken
        else if p.wait == Ran(c) then p.(wait := Nobody)
        else if c == QUIT && p.wait == Pending(QUIT) && p.leaving.Staying? then Phase(Nobody, Due)
        else Broken
      case GaveUp(c) => if p.wait == Pending(c) || p.wait == Ran(c) then p.(wait := Nobody) else Broken
  }

  function After(log: seq<Event>): Phase {
    if log == [] then Phase(Nobody, Staying) else Next(After(log[..|log| - 1]), log[|log| - 1])
  }

  predicate Follows(log: seq<Event>) {
    !After(log).Broken?
  }

  lemma AfterMore(log: seq<Event>, e: Event)
    ensures After(log + [e]) == Next(After(log), e)
  {
    assert (log + [e])[..|log|] == log;
  }

  lemma {:induction false} FollowsPrefix(log: seq<Event>, k: nat)
    requires k <= |log| && Follows(log)
    ensures Follows(log[..k])
  {
    if k < |log| {
      var front := log[..|log| - 1];
      FollowsPrefix(front, k);
      assert front[..k] == log[..k];
    } else {
      assert log[..k] == log;
    }
  }

  /** The phase behind an event tells which event it was. */
  lemma {:induction false} PhaseTells(log: seq<Event>, c: int)
    requires Follows(log)
    ensures After(log) == Phase(Pending(c), Staying) ==> |log| > 0 && log[|log| - 1] == Posted(c)
    ensures After(log).wait == Ran(c) ==>
              |log| > 1 && log[|log| - 1] == Executed(c) && log[|log| - 2] == Posted(c)
  {
    if log != [] {
      var front, e := log[..|log| - 1], log[|log| - 1];
      PhaseTells(front, c);
      if e == Executed(c) && |front| > 0 { assert front[|front| - 1] == log[|log| - 2]; }
    }
  }

  /** In a log that follows the protocol a reply means that the command was carried out exactly
      once, right before it; a reply to quit may come first. A status reply reads OKAY. */
  lemma {:induction false} ReplyMeansExecutedOnce(log: seq<Event>, k: nat, c: int, v: int, d: int)
    requires Follows(log) && k < |log| && log[k] == Replied(c, v, d)
    ensures v == DONE && (c == STATUS ==> d == OKAY)
    ensures || (k > 1 && log[k - 1] == Executed(c) && log[k - 2] == Posted(c))
            || (k > 0 && c == QUIT && log[k - 1] == Posted(QUIT))
  {
    FollowsPrefix(log, k + 1);
    FollowsPrefix(log, k);
    var front := log[..k];
    assert log[..k + 1] == front + [log[k]];
    AfterMore(front, log[k]);
    PhaseTells(front, c);
  }

  // ---------- the invariant ----------

  /** The resident process has no command in hand. */
  predicate Resting(v: Server) {
    v.AtTop? || (v.HasCommand? && v.v != COMMAND) || v == Working([])
  }

  predicate Asked(c: Client) {
    c.Polling? || c.HasReply? || c.GivingUp? || c.Resetting?
  }

  predicate Settled(s: State, w: Wait) {
    match w
    case Nobody => s.command != COMMAND
    case Pending(c) => s.command == COMMAND && s.data1 == c
    case Ran(c) => s.command == DONE && c != QUIT && (c == STATUS ==> s.data1 == OKAY)
  }

  /** What the cells hold while the process works on the command that waits. */
  predicate Busy(s: State, w: Wait) {
    && s.command == COMMAND
    && match s.server
       case HasCommand(v) => w == Pending(s.data1)
       case Working(todo) =>
         || (w == Pending(s.data1) && todo == Program(s.data1))
         || (w.Ran? && w.c != QUIT && w.c != STATUS && todo == [StoreCommand(DONE)])
         || (w == Ran(STATUS) && todo == [StoreData(OKAY), StoreCommand(DONE)])
         || (w == Ran(STATUS) && todo == [StoreCommand(DONE)] && s.data1 == OKAY)
       case _ => false
  }

  predicate Parting(s: State, w: Wait, l: Leaving) {
    if s.server == Working([Execute(QUIT)]) then
      || (l.Staying? && w == Pending(QUIT) && s.command == DONE)
      || (l.Due? && w.Nobody? && s.command != COMMAND)
      || (l.Due? && w.Pending? && s.command == COMMAND)
    else
      && s.server.Gone? && l.Left?
      && match w
         case Nobody => s.command != COMMAND
         case Pending(_) => s.command == COMMAND
         case Ran(c) => c == QUIT && s.command == DONE
  }

  predicate Inv(s: State) {
    var p := After(s.log);
    && p.Phase?
    && ClientKnows(s, p.wait)
    && (if Resting(s.server) then p.leaving.Staying? && Settled(s, p.wait)
        else (p.leaving.Staying? && Busy(s, p.wait)) || Parting(s, p.wait, p.leaving))
  }

  predicate ClientKnows(s: State, w: Wait) {
    && (if Asked(s.client) then w == Pending(s.client.c) || w == Ran(s.client.c) else w.Nobody?)
    && (!s.client.Absent? ==> Request(s.client.c))
    && (s.client.Posting? && !s.server.Gone? && s.server != Working([Execute(QUIT)]) ==> s.data1 == s.client.c)
    && (s.client.HasReply? && s.client.v != COMMAND ==> s.client.v == DONE && s.command == DONE)
  }

  /** A client may give up without harm when no command is in hand, or when all that is left to do
      is a quit that was replied to before its own command was posted. */
  predicate Harmless(s: State) {
    Resting(s.server) || s.server.Gone? || (s.server == Working([Execute(QUIT)]) && s.command == COMMAND)
  }

  /** What a client can see of it: unless it asked for a quit, it gives up without harm when it no longer
      finds its command waiting. */
  lemma {:induction false} HarmlessIfNotWaiting(s: State)
    requires Inv(s) && s.client.Resetting? && s.client.c != QUIT && s.command != COMMAND
    ensures Harmless(s)
  {
    hide After;
  }

  /** While its command waits it cannot tell: two states in which it sees the same, and only one of
      which is harmless. */
  lemma {:induction false} WaitingTellsNothing(c: int)
    requires Request(c)
    ensures var s := State(COMMAND, c, AtTop, Resetting(c), [Posted(c)]);
      var t := s.(server := HasCommand(COMMAND));
      Inv(s) && Inv(t) && Harmless(s) && !Harmless(t)
  {
    AfterMore([], Posted(c));
    assert [] + [Posted(c)] == [Posted(c)];
  }

  lemma {:induction false} ServerKeeps(s: State, t: State)
    requires Inv(s) && ServerStep(s, t)
    ensures Inv(t)
  {
    if s.server.Working? && s.server.todo != [] {
      match s.server.todo[0]
      case Execute(_) => ExecutionKeeps(s, t);
      case StoreData(_) => StoreDataKeeps(s, t);
      case StoreCommand(_) => StoreCommandKeeps(s, t);
    } else {
      LoadKeeps(s, t);
    }
  }

  lemma {:induction false} ExecutionKeeps(s: State, t: State)
    requires Inv(s) && s.server.Working? && s.server.todo != [] && s.server.todo[0].Execute?
    requires t == Perform(s, s.server.todo[0], s.server.todo[1..])
    ensures Inv(t)
  {
    hide After;
    AfterMore(s.log, Executed(s.server.todo[0].c));
  }

  lemma {:induction false} StoreDataKeeps(s: State, t: State)
    requires Inv(s) && s.server.Working? && s.server.todo != [] && s.server.todo[0].StoreData?
    requires t == Perform(s, s.server.todo[0], s.server.todo[1..])
    ensures Inv(t)
  {
    hide After;
    assert After(s.log).wait == Ran(STATUS);
  }

  lemma {:induction false} StoreCommandKeeps(s: State, t: State)
    requires Inv(s) && s.server.Working? && s.server.todo != [] && s.server.todo[0].StoreCommand?
    requires t == Perform(s, s.server.todo[0], s.server.todo[1..])
    ensures Inv(t)
  {
    hide After;
    assert s.server.todo == [StoreCommand(DONE)] || s.server.todo == [StoreCommand(DONE), Execute(QUIT)];
  }

  lemma {:induction false} LoadKeeps(s: State, t: State)
    requires Inv(s) && ServerStep(s, t) && !(s.server.Working? && s.server.todo != [])
    ensures Inv(t)
  {
    hide After;
  }

  lemma {:induction false} ClientKeeps(s: State, t: State)
    requires Inv(s) && ClientStep(s, t)
    requires s.client.Resetting? ==> Harmless(s)
    ensures Inv(t)
  {
    match s.client
    case Posting(c) => PostKeeps(s, t);
    case HasReply(c, v) => ReplyKeeps(s, t);
    case Resetting(c) => GiveUpKeeps(s, t);
    case _ => assert s.log == t.log && s.server == t.server && s.command == t.command;
  }

  lemma {:induction false} PostKeeps(s: State, t: State)
    requires Inv(s) && ClientStep(s, t) && s.client.Posting?
    ensures Inv(t)
  {
    hide After;
    assert After(s.log).wait.Nobody?;
    AfterMore(s.log, Posted(s.client.c));
  }

  lemma {:induction false} ReplyKeeps(s: State, t: State)
    requires Inv(s) && ClientStep(s, t) && s.client.HasReply?
    ensures Inv(t)
  {
    hide After;
    if s.client.v != COMMAND {
      AfterMore(s.log, Replied(s.client.c, DONE, s.data1));
      ReplyIsDue(s);
    }
  }

  /** A client that holds a reply has had its command carried out, or is leaving it to do a quit. */
  lemma {:induction false} ReplyIsDue(s: State)
    requires Inv(s) && s.client.HasReply? && s.client.v != COMMAND
    ensures var p, c := After(s.log), s.client.c;
      || (p.wait == Ran(c) && (c == STATUS ==> s.data1 == OKAY) && (Resting(s.server) || s.server.Gone?))
      || (p == Phase(Pending(QUIT), Staying) && c == QUIT && s.server == Working([Execute(QUIT)]))
  {
    hide After;
  }

  lemma {:induction false} GiveUpKeeps(s: State, t: State)
    requires Inv(s) && ClientStep(s, t) && s.client.Resetting? && Harmless(s)
    ensures Inv(t)
  {
    hide After;
    AfterMore(s.log, GaveUp(s.client.c));
  }

  // ---------- whole runs ----------

  /** Every give-up of the run is a harmless one. */
  ghost predicate Patient(r: seq<State>) {
    forall i :: 0 <= i < |r| - 1 && r[i].client.Resetting? && !ServerStep(r[i], r[i + 1]) ==> Harmless(r[i])
  }

  lemma {:induction false} PatientKeeps(r: seq<State>)
    requires Run(r) && Inv(r[0]) && Patient(r)
    ensures Inv(r[|r| - 1])
  {
    hide Inv, ServerStep, ClientStep, Harmless;
    if |r| > 1 {
      var front := r[..|r| - 1];
      assert forall i :: 0 <= i < |front| ==> front[i] == r[i];
      PatientKeeps(front);
      var i := |r| - 2;
      assert Step(r[i], r[i + 1]);
      if ServerStep(r[i], r[i + 1]) { ServerKeeps(r[i], r[i + 1]); } else { ClientKeeps(r[i], r[i + 1]); }
    }
  }

  /** In every interleaving in which clients only give up harmlessly, and so in every one in which
      none times out, the log follows the protocol. */
  lemma {:induction false} PatientRunsFollow(r: seq<State>)
    requires Run(r) && Init(r[0]) && Patient(r)
    ensures Inv(r[|r| - 1]) && Follows(r[|r| - 1].log)
  {
    PatientKeeps(r);
  }

  /** In such a run a reply other than a command still pending means that the command was carried
      out exactly once; a reply to quit may come just before. A status reply reads OKAY. */
  lemma {:induction false} PatientReplies(r: seq<State>, k: nat, c: int, v: int, d: int)
    requires Run(r) && Init(r[0]) && Patient(r)
    requires var log := r[|r| - 1].log; k < |log| && log[k] == Replied(c, v, d)
    ensures v == DONE && (c == STATUS ==> d == OKAY)
    ensures var log := r[|r| - 1].log;
      || (k > 1 && log[k - 1] == Executed(c) && log[k - 2] == Posted(c))
      || (k > 0 && c == QUIT && log[k - 1] == Posted(QUIT))
  {
    PatientRunsFollow(r);
    ReplyMeansExecutedOnce(r[|r| - 1].log, k, c, v, d);
  }

  // ---------- a client that gives up on a process at work ----------

  /** A run with one more step; patient, if the step is no give-up. */
  lemma Extend(r: seq<State>, t: State) returns (q: seq<State>)
    requires Run(r) && Step(r[|r| - 1], t)
    ensures Run(q) && |q| == |r| + 1 && q[0] == r[0] && q[|q| - 1] == t
    ensures Patient(r) && !r[|r| - 1].client.Resetting? ==> Patient(q)
  {
    hide Harmless, ServerStep, Step;
    q := r + [t];
    forall i | 0 <= i < |q| - 1
      ensures Step(q[i], q[i + 1])
    {
      if i < |r| - 1 { assert q[i] == r[i] && q[i + 1] == r[i + 1]; }
    }
    if Patient(r) && !r[|r| - 1].client.Resetting? {
      forall i | 0 <= i < |q| - 1 && q[i].client.Resetting? && !ServerStep(q[i], q[i + 1])
        ensures Harmless(q[i])
      {
        assert i < |r| - 1 && q[i] == r[i] && q[i + 1] == r[i + 1];
      }
    }
  }

  /** A process at work when its client gives up can go on by itself, or with the next client, to
      a log that breaks the protocol: an execution with no command waiting, or a reply to a command
      that was not carried out. */
  lemma {:induction false} HarmWhenBusy(s: State, t: State) returns (r: seq<State>)
    requires Inv(s) && s.client.Resetting? && !Harmless(s) && ClientStep(s, t)
    ensures Run(r) && r[0] == t && Patient(r) && !Follows(r[|r| - 1].log)
  {
    hide After, Run, Patient;
    AfterMore(s.log, GaveUp(s.client.c));
    r := OneState(t);
    match s.server {
      case HasCommand(_) =>
        r := TornRead(r);
      case Working(todo) =>
        if todo[0].Execute? {
          var u := Perform(t, todo[0], todo[1..]);
          AfterMore(t.log, Executed(todo[0].c));
          r := Extend(r, u);
        } else {
          if todo[0].StoreData? {
            var u := Perform(t, todo[0], todo[1..]);
            assert todo[1..] == [StoreCommand(DONE)] + [];
            r := Extend(r, u);
            r := FalseReply(r, []);
          } else {
            assert todo == [StoreCommand(DONE)] + todo[1..];
            r := FalseReply(r, todo[1..]);
          }
        }
    }
  }

  /** A client that is not there yet comes, finds no command waiting and writes a stop. */
  lemma {:induction false} WriteStop(r0: seq<State>) returns (r: seq<State>)
    requires Run(r0)
    requires var s := r0[|r0| - 1]; s.client == Absent && s.command == DONE
    ensures |r| > |r0| && Run(r) && r[0] == r0[0] && (Patient(r0) ==> Patient(r))
    ensures r[|r| - 1] == r0[|r0| - 1].(client := Posting(STOP), data1 := STOP)
  {
    var s := r0[|r0| - 1];
    var s1 := s.(client := Waiting(STOP));
    var s2 := s.(client := Checking(STOP));
    var s3 := s.(client := Writing(STOP));
    var s4 := s.(client := Posting(STOP), data1 := STOP);
    assert Request(STOP);
    r := Extend(r0, s1);
    r := Extend(r, s2);
    r := Extend(r, s3);
    r := Extend(r, s4);
  }

  /** When the process has loaded COMMAND, what the next client writes is carried out before it is
      posted. */
  lemma {:induction false} TornRead(r0: seq<State>) returns (r: seq<State>)
    requires Run(r0) && Patient(r0)
    requires var s := r0[|r0| - 1];
      s.server == HasCommand(COMMAND) && s.client == Absent && s.command == DONE && After(s.log) == Phase(Nobody, Staying)
    ensures |r| > |r0| && Run(r) && Patient(r) && r[0] == r0[0] && !Follows(r[|r| - 1].log)
  {
    r := WriteStop(r0);
    var s := r[|r| - 1];
    var t := s.(server := Working(Program(STOP)));
    var u := Perform(t, Execute(STOP), [StoreCommand(DONE)]);
    assert Program(STOP)[1..] == [StoreCommand(DONE)];
    AfterMore(s.log, Executed(STOP));
    r := Extend(r, t);
    r := Extend(r, u);
  }

  /** When all that is left is the reply, the next client takes it for its own. */
  lemma {:induction false} FalseReply(r0: seq<State>, rest: seq<Act>) returns (r: seq<State>)
    requires Run(r0) && Patient(r0)
    requires var s := r0[|r0| - 1];
      s.server == Working([StoreCommand(DONE)] + rest) && s.client == Absent && s.command == DONE
      && After(s.log) == Phase(Nobody, Staying)
    ensures |r| > |r0| && Run(r) && Patient(r) && r[0] == r0[0] && !Follows(r[|r| - 1].log)
  {
    hide Run, Patient, After;
    r := WriteStop(r0);
    var s := r[|r| - 1];
    var log := s.log + [Posted(STOP)];
    var t := s.(client := Polling(STOP), command := COMMAND, log := log);
    assert ([StoreCommand(DONE)] + rest)[1..] == rest;
    var u := t.(command := DONE, server := Working(rest));
    var v := u.(client := HasReply(STOP, DONE));
    var w := v.(client := Absent, log := log + [Replied(STOP, DONE, STOP)]);
    AfterMore(s.log, Posted(STOP));
    AfterMore(log, Replied(STOP, DONE, STOP));
    r := Extend(r, t);
    r := Extend(r, u);
    r := Extend(r, v);
    r := Extend(r, w);
  }

  /** A give-up keeps the protocol in every continuation without another harmful one exactly when
      it is harmless. */
  lemma {:induction false} GiveUpIsSafeIffHarmless(s: State, t: State)
    requires Inv(s) && s.client.Resetting? && ClientStep(s, t)
    ensures Harmless(s) <==> forall r: seq<State> :: Run(r) && r[0] == t && Patient(r) ==> Follows(r[|r| - 1].log)
  {
    if Harmless(s) {
      ClientKeeps(s, t);
      forall r: seq<State> | Run(r) && r[0] == t && Patient(r) ensures Follows(r[|r| - 1].log) {
        PatientKeeps(r);
      }
    } else {
      var r := HarmWhenBusy(s, t);
      assert Run(r) && r[0] == t && Patient(r);
    }
  }

  // ---------- every command is carried out ----------

  /** The command c is posted and not carried out yet, or a quit was replied to and is still due. */
  predicate Unfinished(s: State, c: int) {
    After(s.log) == Phase(Pending(c), Staying) || (c == QUIT && After(s.log).Phase? && After(s.log).leaving.Due?)
  }

  /** How many steps of its own the process takes until it carries out c. */
  function ToGo(s: State, c: int): nat {
    var acts := if c == QUIT then 2 else 1;
    if s.server == Working([Execute(QUIT)]) then 1
    else if s.server == HasCommand(COMMAND) then acts + 1
    else if s.server.AtTop? then acts + 2
    else if s.server.HasCommand? || s.server == Working([]) then acts + 3
    else acts
  }

  /** With a command unfinished the process is not gone, and each step of its own brings it closer. */
  lemma {:induction false} ServerStepCloser(s: State, t: State, c: int)
    requires Inv(s) && Unfinished(s, c)
    ensures !s.server.Gone? && 0 < ToGo(s, c) <= 5
    ensures ServerStep(s, t) ==>
              if ToGo(s, c) == 1 then t.log == s.log + [Executed(c)]
              else t.log == s.log && ToGo(t, c) == ToGo(s, c) - 1
  {
    hide After;
    var p := After(s.log);
    assert p.wait == Pending(c) ==> Request(c);
    if !Resting(s.server) && p.leaving.Staying? && Busy(s, p.wait) {
      assert s.server.Working? ==> s.server.todo == Program(c);
    }
  }

  /** The client does not move it, unless it gives up. */
  lemma {:induction false} ClientStepKeepsUnfinished(s: State, t: State, c: int)
    requires Inv(s) && Unfinished(s, c) && ClientStep(s, t) && !s.client.Resetting?
    ensures Unfinished(t, c) && ToGo(t, c) == ToGo(s, c)
  {
    match s.client
    case Posting(d) => AfterMore(s.log, Posted(d));
    case HasReply(d, v) =>
      if v != COMMAND {
        AfterMore(s.log, Replied(d, DONE, s.data1));
        ReplyIsDue(s);
      }
    case Resetting(_) =>
    case _ => assert t.log == s.log;
  }

  ghost function ServerSteps(r: seq<State>): nat {
    if |r| < 2 then 0 else ServerSteps(r[..|r| - 1]) + if ServerStep(r[|r| - 2], r[|r| - 1]) then 1 else 0
  }

  ghost predicate NoGiveUp(r: seq<State>) {
    forall i :: 0 <= i < |r| - 1 && r[i].client.Resetting? ==> ServerStep(r[i], r[i + 1])
  }

  ghost predicate ExecutesAt(r: seq<State>, i: nat, c: int) {
    i < |r| - 1 && r[i + 1].log == r[i].log + [Executed(c)]
  }

  lemma {:induction false} CloserInRuns(r: seq<State>, c: int)
    requires Run(r) && Inv(r[0]) && Unfinished(r[0], c) && NoGiveUp(r)
    ensures (exists i :: ExecutesAt(r, i, c))
         || (Inv(r[|r| - 1]) && Unfinished(r[|r| - 1], c) && ToGo(r[|r| - 1], c) + ServerSteps(r) == ToGo(r[0], c))
  {
    hide Inv, ServerStep, ClientStep, ToGo, Unfinished;
    if |r| > 1 {
      var front := r[..|r| - 1];
      assert forall i :: 0 <= i < |front| ==> front[i] == r[i];
      CloserInRuns(front, c);
      var i := |r| - 2;
      assert Step(r[i], r[i + 1]);
      if k :| ExecutesAt(front, k, c) {
        assert ExecutesAt(r, k, c);
      } else if ServerStep(r[i], r[i + 1]) {
        ServerKeeps(r[i], r[i + 1]);
        ServerStepCloser(r[i], r[i + 1], c);
        if ToGo(r[i], c) == 1 { assert ExecutesAt(r, i, c); } else { StillUnfinished(r[i], r[i + 1], c); }
      } else {
        ClientKeeps(r[i], r[i + 1]);
        ServerStepCloser(r[i], r[i + 1], c);
        ClientStepKeepsUnfinished(r[i], r[i + 1], c);
      }
    }
  }

  lemma StillUnfinished(s: State, t: State, c: int)
    requires Unfinished(s, c) && t.log == s.log
    ensures Unfinished(t, c)
  {
  }

  /** In every interleaving a command that was posted is carried out with the fifth step of the process
      at the latest, unless the client gives it up. */
  lemma {:induction false} PostedIsExecuted(r: seq<State>, c: int)
    requires Run(r) && Inv(r[0]) && After(r[0].log) == Phase(Pending(c), Staying) && NoGiveUp(r)
    requires ServerSteps(r) >= 5
    ensures exists i :: ExecutesAt(r, i, c)
  {
    CloserInRuns(r, c);
    ServerStepCloser(r[0], r[0], c);
    if Inv(r[|r| - 1]) && Unfinished(r[|r| - 1], c) { ServerStepCloser(r[|r| - 1], r[|r| - 1], c); }
  }

  // ---------- the process alone ----------

  function ServerNext(s: State): State
    requires !s.server.Gone?
  {
    match s.server
    case AtTop => s.(server := HasCommand(s.command))
    case HasCommand(v) => s.(server := if v == COMMAND then Working(Program(s.data1)) else AtTop)
    case Working(todo) => if todo == [] then s.(server := AtTop) else Perform(s, todo[0], todo[1..])
  }

  lemma ServerIsDeterministic(s: State, t: State)
    ensures ServerStep(s, t) <==> !s.server.Gone? && t == ServerNext(s)
  {
  }

  /** The state after n steps of the process alone. */
  function Alone(s: State, n: nat): State
    decreases n
  {
    if n == 0 || s.server.Gone? then s else Alone(ServerNext(s), n - 1)
  }

  lemma AloneMore(s: State, n: nat)
    requires !s.server.Gone?
    ensures Alone(s, n + 1) == Alone(ServerNext(s), n)
  {
  }

  /** The state in which the process has carried out c and answered it. */
  function CarriedOut(s: State, c: int): State {
    s.(log := s.log + [Executed(c)], command := DONE, data1 := if c == STATUS then OKAY else s.data1,
       server := if c == QUIT then Gone else AtTop)
  }

  lemma {:induction false} RunsProgram(s: State, c: int) returns (n: nat)
    requires Request(c) && s.server == Working(Program(c))
    ensures n <= 4 && Alone(s, n) == CarriedOut(s, c)
    ensures c == QUIT ==> n > 0 && Alone(s, n - 1) == s.(command := DONE, server := Working([Execute(QUIT)]))
  {
    var s1 := ServerNext(s);
    var s2 := ServerNext(s1);
    assert Alone(s, 2) == Alone(s1, 1) == Alone(s2, 0);
    if c == QUIT {
      assert Program(QUIT)[1..] == [Execute(QUIT)];
      assert Alone(s, 1) == Alone(s1, 0);
      n := 2;
    } else {
      var s3 := ServerNext(s2);
      assert Program(c)[1..][1..] == if c == STATUS then [StoreCommand(DONE)] else [];
      assert Alone(s, 3) == Alone(s1, 2) == Alone(s2, 1) == Alone(s3, 0);
      n := 3;
      if c == STATUS {
        assert [StoreCommand(DONE)][1..] == [];
        var s4 := ServerNext(s3);
        assert Alone(s, 4) == Alone(s1, 3) == Alone(s2, 2) == Alone(s3, 1) == Alone(s4, 0);
        n := 4;
      }
    }
  }

  /** How many loads are still to come. */
  function Loads(v: Server): nat {
    if v == HasCommand(COMMAND) then 1 else if v.AtTop? then 2 else 3
  }

  /** At rest, the process loads the two cells and starts on what they say. */
  lemma {:induction false} LoadsCommand(s: State, c: int) returns (n: nat)
    requires Request(c) && s.command == COMMAND && s.data1 == c
    requires s.server.AtTop? || s.server.HasCommand? || s.server == Working([])
    ensures n <= 4 + Loads(s.server) && Alone(s, n) == CarriedOut(s, c)
    ensures c == QUIT ==> n > 0 && Alone(s, n - 1) == s.(command := DONE, server := Working([Execute(QUIT)]))
    decreases Loads(s.server)
  {
    hide Alone;
    var t := ServerNext(s);
    if s.server == HasCommand(COMMAND) { n := RunsProgram(t, c); } else { n := LoadsCommand(t, c); }
    AloneMore(s, n);
    if c == QUIT { AloneMore(s, n - 1); }
    n := n + 1;
  }

  /** Whatever command is posted, the process alone carries it out once, and it is at rest again, or gone
      after a quit, within seven steps: then command is DONE and, for a status, data1 OKAY. A quit is
      answered before it is carried out. */
  lemma {:induction false} CommandIsCarriedOut(s: State, c: int) returns (n: nat)
    requires Inv(s) && After(s.log) == Phase(Pending(c), Staying)
    ensures n <= 7 && Alone(s, n) == CarriedOut(s, c)
    ensures c == QUIT ==> n > 0 && Alone(s, n - 1) == s.(command := DONE, server := Working([Execute(QUIT)]))
    decreases ToGo(s, c)
  {
    hide After;
    assert Request(c);
    ServerStepCloser(s, s, c);
    if s.server == Working([Execute(QUIT)]) {
      assert [Execute(QUIT)][1..] == [];
      assert Alone(s, 1) == Alone(ServerNext(s), 0) && Alone(s, 0) == s;
      n := 1;
    } else if s.server.Working? && s.server.todo != [] {
      n := RunsProgram(s, c);
    } else {
      n := LoadsCommand(s, c);
    }
  }

  lemma {:induction false} AloneRuns(r0: seq<State>, n: nat) returns (r: seq<State>)
    requires Run(r0) && Patient(r0) && !r0[|r0| - 1].client.Resetting?
    ensures |r| > 0 && Run(r) && Patient(r) && r[0] == r0[0] && r[|r| - 1] == Alone(r0[|r0| - 1], n)
    decreases n
  {
    var s := r0[|r0| - 1];
    hide Run, Patient;
    r := r0;
    if n > 0 && !s.server.Gone? {
      ServerIsDeterministic(s, ServerNext(s));
      r := Extend(r0, ServerNext(s));
      r := AloneRuns(r, n - 1);
    }
  }

  /** A client that finds no command waiting posts any of the five requests. */
  lemma {:induction false} ClientPosts(s: State, c: int) returns (r: seq<State>)
    requires s.client == Absent && s.command != COMMAND && c in {START, STOP, RESTART, QUIT, STATUS}
    ensures |r| > 0 && Run(r) && Patient(r) && r[0] == s
    ensures r[|r| - 1] == s.(client := Polling(c), command := COMMAND, data1 := c, log := s.log + [Posted(c)])
  {
    hide Run, Patient;
    assert Request(c);
    r := OneState(s);
    var s1, s2, s3 := s.(client := Waiting(c)), s.(client := Checking(c)), s.(client := Writing(c));
    var s4 := s.(client := Posting(c), data1 := c);
    r := Extend(r, s1);
    r := Extend(r, s2);
    r := Extend(r, s3);
    r := Extend(r, s4);
    r := Extend(r, s4.(client := Polling(c), command := COMMAND, log := s.log + [Posted(c)]));
  }

  lemma OneState(s: State) returns (r: seq<State>)
    ensures r == [s] && Run(r) && Patient(r)
  {
    r := [s];
  }

  /** Every request can be brought to its end: posted, carried out and answered, by a run in which
      nobody gives up, from every state in which no command is under way and no quit is due. */
  lemma {:induction false} ExchangeCompletes(s: State, c: int) returns (r: seq<State>)
    requires Inv(s) && s.client == Absent && After(s.log) == Phase(Nobody, Staying)
    requires c in {START, STOP, RESTART, QUIT, STATUS}
    ensures Run(r) && Patient(r) && r[0] == s
    ensures r[|r| - 1].log == s.log + [Posted(c), Executed(c), Replied(c, DONE, if c == STATUS then OKAY else c)]
  {
    hide Run, Patient, Inv, After, Alone;
    assert s.command != COMMAND by { NobodyWaits(s); }
    r := ClientPosts(s, c);
    var t := r[|r| - 1];
    InvAtEnd(r);
    AfterMore(s.log, Posted(c));
    var n := CommandIsCarriedOut(t, c);
    r := AloneRuns(r, n);
    var u := CarriedOut(t, c);
    var v := u.(client := HasReply(c, DONE));
    r := Extend(r, v);
    r := Extend(r, v.(client := Absent, log := u.log + [Replied(c, DONE, u.data1)]));
    assert u.log + [Replied(c, DONE, u.data1)] == s.log + [Posted(c), Executed(c), Replied(c, DONE, u.data1)];
  }

  lemma NobodyWaits(s: State)
    requires Inv(s) && After(s.log) == Phase(Nobody, Staying)
    ensures s.command != COMMAND
  {
    hide After;
  }

  lemma InvAtEnd(r: seq<State>)
    requires Run(r) && Patient(r) && Inv(r[0])
    ensures Inv(r[|r| - 1])
  {
    PatientKeeps(r);
  }

  // ---------- with clients that time out ----------

  function Posts(log: seq<Event>): nat {
    if log == [] then 0 else Posts(log[..|log| - 1]) + if log[|log| - 1].Posted? then 1 else 0
  }

  function Executions(log: seq<Event>): nat {
    if log == [] then 0 else Executions(log[..|log| - 1]) + if log[|log| - 1].Executed? then 1 else 0
  }

  lemma CountsMore(log: seq<Event>, e: Event)
    ensures Posts(log + [e]) == Posts(log) + if e.Posted? then 1 else 0
    ensures Executions(log + [e]) == Executions(log) + if e.Executed? then 1 else 0
  {
    assert (log + [e])[..|log|] == log;
  }

  /** Whether a command is on its way to an execution: waiting, taken, or in what is left to do. */
  function Owed(s: State): nat {
    if Resting(s.server) then if s.command == COMMAND then 1 else 0
    else if s.server.HasCommand? then 1
    else if s.server.Working? && Executes(s.server.todo) then 1
    else 0
  }

  predicate Executes(todo: seq<Act>) {
    (|todo| > 0 && todo[0].Execute?) || (|todo| > 1 && todo[1].Execute?)
  }

  /** What is left to do is the end of a program that stores a reply. */
  predicate Ending(todo: seq<Act>) {
    || todo == []
    || todo == [StoreCommand(DONE)] || todo == [StoreCommand(DONEBAD)]
    || todo == [StoreData(OKAY), StoreCommand(DONE)]
    || todo == [Execute(QUIT)] || todo == [StoreCommand(DONE), Execute(QUIT)]
    || todo == [Execute(STATUS), StoreData(OKAY), StoreCommand(DONE)]
    || (|todo| == 2 && todo[0].Execute? && todo[0].c != QUIT && todo[1] == StoreCommand(DONE))
  }

  predicate Bounded(s: State) {
    && Executions(s.log) + Owed(s) <= Posts(s.log)
    && (s.server.Working? ==> Ending(s.server.todo))
    && (!s.client.Absent? ==> Request(s.client.c))
    && (s.client.Posting? || s.command == COMMAND || s.server == HasCommand(COMMAND) ==> Request(s.data1) || s.data1 == OKAY)
  }

  lemma {:induction false} ServerKeepsBounded(s: State, t: State)
    requires Bounded(s) && ServerStep(s, t)
    ensures Bounded(t)
  {
    hide Executions, Posts;
    if s.server.Working? && s.server.todo != [] { ActKeepsBounded(s, t); }
  }

  lemma {:induction false} ActKeepsBounded(s: State, t: State)
    requires Bounded(s) && s.server.Working? && s.server.todo != []
    requires t == Perform(s, s.server.todo[0], s.server.todo[1..])
    ensures Bounded(t)
  {
    hide Executions, Posts;
    var todo := s.server.todo;
    assert Ending(todo[1..]) && (Executes(todo) <==> todo[0].Execute? || Executes(todo[1..]));
    if todo[0].Execute? { CountsMore(s.log, Executed(todo[0].c)); }
  }

  lemma {:induction false} ClientKeepsBounded(s: State, t: State)
    requires Bounded(s) && ClientStep(s, t)
    ensures Bounded(t)
  {
    match s.client
    case Posting(c) => CountsMore(s.log, Posted(c));
    case HasReply(c, v) => CountsMore(s.log, Replied(c, v, s.data1));
    case Resetting(c) => CountsMore(s.log, GaveUp(c));
    case _ =>
  }

  lemma {:induction false} RunsStayBounded(r: seq<State>)
    requires Run(r) && Bounded(r[0])
    ensures Bounded(r[|r| - 1])
  {
    hide Bounded, ServerStep, ClientStep;
    if |r| > 1 {
      var front := r[..|r| - 1];
      assert forall i :: 0 <= i < |front| ==> front[i] == r[i];
      RunsStayBounded(front);
      var i := |r| - 2;
      assert Step(r[i], r[i + 1]);
      if ServerStep(r[i], r[i + 1]) { ServerKeepsBounded(r[i], r[i + 1]); } else { ClientKeepsBounded(r[i], r[i + 1]); }
    }
  }

  /** In every run, whatever clients do, no more commands are carried out than were posted, at any
      moment. */
  lemma {:induction false} NoMoreExecutionsThanPosts(r: seq<State>)
    requires Run(r) && Init(r[0])
    ensures Executions(r[|r| - 1].log) <= Posts(r[|r| - 1].log)
  {
    RunsStayBounded(r);
  }

  /** A client that posts a start gives up while the process is between its two loads. */
  lemma {:induction false} GivesUpBetweenLoads() returns (r: seq<State>)
    ensures Run(r) && Init(r[0])
    ensures r[|r| - 1] == State(DONE, START, HasCommand(COMMAND), Absent, [Posted(START), GaveUp(START)])
  {
    assert Request(START);
    var s := State(DONESTARTUP, OKAY, AtTop, Absent, []);
    r := [s];
    r := Extend(r, s.(client := Waiting(START)));
    r := Extend(r, s.(client := Checking(START)));
    r := Extend(r, s.(client := Writing(START)));
    r := Extend(r, s.(client := Posting(START), data1 := START));
    s := State(COMMAND, START, AtTop, Polling(START), [Posted(START)]);
    r := Extend(r, s);
    s := s.(server := HasCommand(COMMAND));
    r := Extend(r, s);
    r := Extend(r, s.(client := HasReply(START, COMMAND)));
    r := Extend(r, s.(client := GivingUp(START)));
    r := Extend(r, s.(client := Resetting(START)));
    r := Extend(r, s.(client := Absent, command := DONE, log := [Posted(START)] + [GaveUp(START)]));
  }

  /** The process takes the stop the next client has written but not posted. */
  lemma {:induction false} StopCarriedOutEarly() returns (r: seq<State>)
    ensures Run(r) && Init(r[0])
    ensures r[|r| - 1] == State(DONE, STOP, AtTop, Posting(STOP), [Posted(START), GaveUp(START), Executed(STOP)])
  {
    var P := Program(STOP);
    assert P[1..] == [StoreCommand(DONE)] && P[1..][1..] == [];
    r := GivesUpBetweenLoads();
    r := WriteStop(r);
    var s := r[|r| - 1];
    r := Extend(r, s.(server := Working(P)));
    s := s.(log := [Posted(START), GaveUp(START), Executed(STOP)]);
    assert s.log == [Posted(START), GaveUp(START)] + [Executed(STOP)];
    r := Extend(r, s.(server := Working(P[1..])));
    r := Extend(r, s.(server := Working([])));
    r := Extend(r, s.(server := AtTop));
  }

  /** A single command can nevertheless be carried out twice: the stop that was carried out before
      it was posted is taken again once it is. */
  lemma {:induction false} StopCarriedOutTwice() returns (r: seq<State>)
    ensures Run(r) && Init(r[0])
    ensures r[|r| - 1].log == [Posted(START), GaveUp(START), Executed(STOP), Posted(STOP), Executed(STOP)]
  {
    var P := Program(STOP);
    r := StopCarriedOutEarly();
    var s := r[|r| - 1];
    s := s.(client := Polling(STOP), command := COMMAND, log := s.log + [Posted(STOP)]);
    r := Extend(r, s);
    r := Extend(r, s.(server := HasCommand(COMMAND)));
    r := Extend(r, s.(server := Working(P)));
    r := Extend(r, s.(server := Working(P[1..]), log := s.log + [Executed(STOP)]));
  }
}