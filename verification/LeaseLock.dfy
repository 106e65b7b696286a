/**
 The leased lock: two shared registers (owner and end time), one clock, and any number of clients that
 interleave the steps of `lock` and `unlock` freely. A client is a process that uses the lock under some
 owner name; two clients may use the same name.
 */
module LeaseLock {
  import opened Wrappers

  /** Seconds that `lock` sleeps between writing the registers and reading the owner back. */
  const PAUSE := 0.01

  /** The owner name a client passes, or the machine id it falls back on; None if there is neither. */
  datatype Party = Party(owner: Option<string>, duration: int)

  /** The clients; whether `lock` computes and writes the end time, and `unlock` reads and deletes, in one step. */
  datatype Config = Config(parties: map<string, Party>, atomicEnd: bool, atomicUnlock: bool)

  /** Where a client is in `lock` or `unlock`. `start` is the time of the first read of the test, `lease` the computed
      end time. */
  datatype Pc =
    | Idle
    | ReadingEnd(start: real)
    | Comparing(start: real, seen: real)
    | WritingOwner(start: real)
    | WritingEnd
    | StoringEnd(lease: real)
    | Pausing(since: real, lease: real)
    | DeletingOwner
    | DeletingEnd

  /** `held` is the end of the lease of a `lock` that returned True and has not been unlocked since. */
  datatype Client = Client(pc: Pc, held: Option<real>)

  datatype State = State(now: real, owner: Option<string>, end: Option<real>, clients: map<string, Client>)

  datatype Action =
    | Tick(dt: real)
    | ReadOwner(c: string)
    | ReadEnd(c: string)
    | Compare(c: string)
    | WriteOwner(c: string)
    | WriteEnd(c: string)
    | ComputeEnd(c: string)
    | StoreEnd(c: string)
    | Recheck(c: string)
    | Unlock(c: string)
    | BeginUnlock(c: string)
    | DeleteOwner(c: string)
    | DeleteEnd(c: string)
    | ForceUnlock

  function Init(cfg: Config): State {
    State(0.0, None, None, map c | c in cfg.parties :: Client(Idle, None))
  }

  /** What is in the owner register lets `p` pass the first half of the test. */
  predicate Passes(owner: Option<string>, p: Party) {
    Blank(owner) || owner == p.owner
  }

  predicate Blank(owner: Option<string>) {
    owner == None || owner == Some("")
  }

  predicate At(cfg: Config, s: State, c: string) {
    c in s.clients && c in cfg.parties
  }

  predicate Enabled(cfg: Config, s: State, a: Action) {
    match a
    case Tick(dt) => dt >= 0.0
    case ReadOwner(c) => At(cfg, s, c) && s.clients[c].pc.Idle?
    case ReadEnd(c) => At(cfg, s, c) && s.clients[c].pc.ReadingEnd?
    case Compare(c) => At(cfg, s, c) && s.clients[c].pc.Comparing?
    case WriteOwner(c) => At(cfg, s, c) && s.clients[c].pc.WritingOwner?
    case WriteEnd(c) => cfg.atomicEnd && At(cfg, s, c) && s.clients[c].pc.WritingEnd?
    case ComputeEnd(c) => !cfg.atomicEnd && At(cfg, s, c) && s.clients[c].pc.WritingEnd?
    case StoreEnd(c) => At(cfg, s, c) && s.clients[c].pc.StoringEnd?
    case Recheck(c) => At(cfg, s, c) && s.clients[c].pc.Pausing? && s.clients[c].pc.since + PAUSE <= s.now
    case Unlock(c) => cfg.atomicUnlock && At(cfg, s, c) && s.clients[c].pc.Idle?
    case BeginUnlock(c) => !cfg.atomicUnlock && At(cfg, s, c) && s.clients[c].pc.Idle?
    case DeleteOwner(c) => At(cfg, s, c) && s.clients[c].pc.DeletingOwner?
    case DeleteEnd(c) => At(cfg, s, c) && s.clients[c].pc.DeletingEnd?
    case ForceUnlock => true
  }

  function Lease(cfg: Config, c: string): real
    requires c in cfg.parties
  {
    cfg.parties[c].duration as real
  }

  function Goto(s: State, c: string, pc: Pc): State
    requires c in s.clients
  {
    s.(clients := s.clients[c := s.clients[c].(pc := pc)])
  }

  /** One step. The branches are those of `test_lock`, `lock` and `unlock`. */
  function Do(cfg: Config, s: State, a: Action): State
    requires Enabled(cfg, s, a)
  {
    match a
    case Tick(dt) => s.(now := s.now + dt)
    case ReadOwner(c) =>
      Goto(s, c, if Passes(s.owner, cfg.parties[c]) then WritingOwner(s.now) else ReadingEnd(s.now))
    case ReadEnd(c) =>
      var start := s.clients[c].pc.start;
      Goto(s, c, if s.end.None? then WritingOwner(start) else Comparing(start, s.end.value))
    case Compare(c) =>
      var pc := s.clients[c].pc;
      Goto(s, c, if pc.seen < s.now then WritingOwner(pc.start) else Idle)
    case WriteOwner(c) => Goto(s, c, WritingEnd).(owner := cfg.parties[c].owner)
    case WriteEnd(c) =>
      var lease := s.now + Lease(cfg, c);
      Goto(s, c, Pausing(s.now, lease)).(end := Some(lease))
    case ComputeEnd(c) => Goto(s, c, StoringEnd(s.now + Lease(cfg, c)))
    case StoreEnd(c) =>
      var lease := s.clients[c].pc.lease;
      Goto(s, c, Pausing(s.now, lease)).(end := Some(lease))
    case Recheck(c) =>
      if s.owner == cfg.parties[c].owner then s.(clients := s.clients[c := Client(Idle, Some(s.clients[c].pc.lease))])
      else Goto(s, c, Idle)
    case Unlock(c) =>
      if s.owner != cfg.parties[c].owner then s
      else s.(owner := None, end := None, clients := s.clients[c := Client(Idle, None)])
    case BeginUnlock(c) =>
      if s.owner == cfg.parties[c].owner then s.(clients := s.clients[c := Client(DeletingOwner, None)]) else s
    case DeleteOwner(c) => Goto(s, c, DeletingEnd).(owner := None)
    case DeleteEnd(c) => Goto(s, c, Idle).(end := None)
    case ForceUnlock =>
      s.(owner := None, end := None, clients := map c | c in s.clients :: s.clients[c].(held := None))
  }

  // ----- runs -----

  /** No client has spent `w` seconds or more between its first read and its write of the owner. */
  predicate SpansBelow(w: real, s: State) {
    forall c :: c in s.clients ==> Brief(w, s.now, s.clients[c].pc)
  }

  predicate Brief(w: real, now: real, pc: Pc) {
    match pc
    case ReadingEnd(start) => now - start < w
    case Comparing(start, _) => now - start < w
    case WritingOwner(start) => now - start < w
    case _ => true
  }

  predicate Legal(cfg: Config, w: real, run: seq<Action>)
    decreases |run|, 0
  {
    run == [] ||
    (Legal(cfg, w, run[..|run| - 1]) && Enabled(cfg, After(cfg, w, run[..|run| - 1]), run[|run| - 1]) &&
     SpansBelow(w, Do(cfg, After(cfg, w, run[..|run| - 1]), run[|run| - 1])))
  }

  function After(cfg: Config, w: real, run: seq<Action>): State
    requires Legal(cfg, w, run)
    decreases |run|, 1
  {
    if run == [] then Init(cfg) else Do(cfg, After(cfg, w, run[..|run| - 1]), run[|run| - 1])
  }

  predicate Live(s: State, c: string)
    requires c in s.clients
  {
    s.clients[c].held.Some? && s.now <= s.clients[c].held.value
  }

  /** At most one client holds an unexpired lease. */
  predicate Exclusive(s: State) {
    forall c, d :: c in s.clients && d in s.clients && Live(s, c) && Live(s, d) ==> c == d
  }

  /** The lock is exclusive in every state of every run whose spans stay below `w`. */
  ghost predicate Safe(cfg: Config, w: real) {
    forall run :: Legal(cfg, w, run) ==> Exclusive(After(cfg, w, run))
  }

  predicate EqualDurations(cfg: Config) {
    forall c, d :: c in cfg.parties && d in cfg.parties ==> cfg.parties[c].duration == cfg.parties[d].duration
  }

  /** No name is blank, and no two clients have the same. */
  predicate OwnNames(cfg: Config) {
    && (forall c :: c in cfg.parties ==> !Blank(cfg.parties[c].owner))
    && (forall c, d :: c in cfg.parties && d in cfg.parties && c != d ==> cfg.parties[c].owner != cfg.parties[d].owner)
  }

  // ----- the invariant -----

  /** No other client can get past a lease that ends at `lease`, except one that began before `from`. */
  predicate Fenced(s: State, a: string, from: real, lease: real) {
    && s.end.Some? && lease <= s.end.value
    && forall b :: b in s.clients && b != a ==>
         match s.clients[b].pc
         case Comparing(start, seen) => start > from ==> lease <= seen
         case WritingOwner(start) => start > from ==> lease < s.now
         case _ => true
  }

  predicate NotAhead(s: State, k: Client, d: real) {
    && (k.held.Some? ==> k.held.value <= s.now + d)
    && match k.pc
       case ReadingEnd(start) => start <= s.now
       case Comparing(start, _) => start <= s.now
       case WritingOwner(start) => start <= s.now
       case Pausing(since, lease) => since <= s.now && lease == since + d
       case StoringEnd(_) => false
       case DeletingOwner => false
       case DeletingEnd => false
       case _ => true
  }

  predicate ClientInv(cfg: Config, d: real, s: State, a: string)
    requires At(cfg, s, a)
  {
    var k := s.clients[a];
    && NotAhead(s, k, d)
    && (k.pc.Pausing? && s.owner == cfg.parties[a].owner ==> Fenced(s, a, k.pc.since, k.pc.lease))
    && (Live(s, a) ==> s.owner == cfg.parties[a].owner && Guarded(s, a, k.held.value))
  }

  /** No other client has passed, or can still pass, the test while the lease lasts. */
  predicate Guarded(s: State, a: string, lease: real) {
    && s.end.Some? && lease <= s.end.value
    && forall b :: b in s.clients && b != a ==>
         match s.clients[b].pc
         case Comparing(_, seen) => lease <= seen
         case WritingOwner(_) => false
         case _ => true
  }

  predicate Inv(cfg: Config, d: real, w: real, s: State) {
    && s.clients.Keys == cfg.parties.Keys
    && (forall c :: c in cfg.parties ==> Lease(cfg, c) == d)
    && cfg.atomicEnd && OwnNames(cfg)
    && SpansBelow(w, s)
    && forall c :: c in s.clients ==> ClientInv(cfg, d, s, c)
  }

  lemma ReadOwnerStep(cfg: Config, d: real, w: real, s: State, a: Action, c: string)
    requires Inv(cfg, d, w, s) && Enabled(cfg, s, a) && At(cfg, s, c)
    requires a.ReadOwner?
    ensures ClientInv(cfg, d, Do(cfg, s, a), c)
  {
    assert ClientInv(cfg, d, s, c) && ClientInv(cfg, d, s, a.c);
  }

  lemma ReadEndStep(cfg: Config, d: real, w: real, s: State, a: Action, c: string)
    requires Inv(cfg, d, w, s) && Enabled(cfg, s, a) && At(cfg, s, c)
    requires a.ReadEnd?
    ensures ClientInv(cfg, d, Do(cfg, s, a), c)
  {
    assert ClientInv(cfg, d, s, c) && ClientInv(cfg, d, s, a.c);
  }

  lemma CompareStep(cfg: Config, d: real, w: real, s: State, a: Action, c: string)
    requires Inv(cfg, d, w, s) && Enabled(cfg, s, a) && At(cfg, s, c)
    requires a.Compare?
    ensures ClientInv(cfg, d, Do(cfg, s, a), c)
  {
    assert ClientInv(cfg, d, s, c) && ClientInv(cfg, d, s, a.c);
  }

  lemma WriteOwnerStep(cfg: Config, d: real, w: real, s: State, a: Action, c: string)
    requires Inv(cfg, d, w, s) && Enabled(cfg, s, a) && At(cfg, s, c)
    requires a.WriteOwner?
    ensures ClientInv(cfg, d, Do(cfg, s, a), c)
  {
    assert ClientInv(cfg, d, s, c) && ClientInv(cfg, d, s, a.c);
  }

  /** A later end time never undercuts an earlier one, as all durations are equal. */
  lemma WriteEndStep(cfg: Config, d: real, w: real, s: State, a: Action, c: string)
    requires Inv(cfg, d, w, s) && Enabled(cfg, s, a) && At(cfg, s, c)
    requires a.WriteEnd?
    ensures ClientInv(cfg, d, Do(cfg, s, a), c)
  {
    assert ClientInv(cfg, d, s, c) && ClientInv(cfg, d, s, a.c);
    forall b | At(cfg, s, b) ensures NotAhead(s, s.clients[b], d) {
      assert ClientInv(cfg, d, s, b);
    }
  }

  /** The pause outlasts every span that began before the end time was written. */
  lemma RecheckStep(cfg: Config, d: real, w: real, s: State, a: Action, c: string)
    requires Inv(cfg, d, w, s) && Enabled(cfg, s, a) && At(cfg, s, c)
    requires a.Recheck? && w <= PAUSE
    ensures ClientInv(cfg, d, Do(cfg, s, a), c)
  {
    assert ClientInv(cfg, d, s, c) && ClientInv(cfg, d, s, a.c);
  }

  lemma UnlockStep(cfg: Config, d: real, w: real, s: State, a: Action, c: string)
    requires cfg.atomicUnlock
    requires Inv(cfg, d, w, s) && Enabled(cfg, s, a) && At(cfg, s, c)
    requires a.Unlock?
    ensures ClientInv(cfg, d, Do(cfg, s, a), c)
  {
    assert ClientInv(cfg, d, s, c) && ClientInv(cfg, d, s, a.c);
  }

  lemma ClockStep(cfg: Config, d: real, w: real, s: State, a: Action, c: string)
    requires Inv(cfg, d, w, s) && Enabled(cfg, s, a) && At(cfg, s, c)
    requires a.Tick? || a.ForceUnlock?
    ensures ClientInv(cfg, d, Do(cfg, s, a), c)
  {
    assert ClientInv(cfg, d, s, c);
  }

  /** With one-step writes and unlocks nobody is ever between the halves of one. */
  lemma NoHalfStep(cfg: Config, d: real, w: real, s: State, a: Action)
    requires cfg.atomicUnlock
    requires Inv(cfg, d, w, s) && Enabled(cfg, s, a)
    ensures !(a.BeginUnlock? || a.DeleteOwner? || a.DeleteEnd? || a.ComputeEnd? || a.StoreEnd?)
  {
  }

  lemma InvStep(cfg: Config, d: real, w: real, s: State, a: Action)
    requires cfg.atomicUnlock && w <= PAUSE
    requires Inv(cfg, d, w, s) && Enabled(cfg, s, a) && SpansBelow(w, Do(cfg, s, a))
    ensures Inv(cfg, d, w, Do(cfg, s, a))
  {
    NoHalfStep(cfg, d, w, s, a);
    forall c | At(cfg, s, c) ensures ClientInv(cfg, d, Do(cfg, s, a), c) {
      match a
      case ReadOwner(_) => ReadOwnerStep(cfg, d, w, s, a, c);
      case ReadEnd(_) => ReadEndStep(cfg, d, w, s, a, c);
      case Compare(_) => CompareStep(cfg, d, w, s, a, c);
      case WriteOwner(_) => WriteOwnerStep(cfg, d, w, s, a, c);
      case WriteEnd(_) => WriteEndStep(cfg, d, w, s, a, c);
      case Recheck(_) => RecheckStep(cfg, d, w, s, a, c);
      case Unlock(_) => UnlockStep(cfg, d, w, s, a, c);
      case Tick(_) => ClockStep(cfg, d, w, s, a, c);
      case ForceUnlock => ClockStep(cfg, d, w, s, a, c);
      case _ =>
    }
  }

  lemma {:induction false} InvHolds(cfg: Config, d: real, w: real, run: seq<Action>)
    requires cfg.atomicUnlock && cfg.atomicEnd && OwnNames(cfg) && w <= PAUSE && Legal(cfg, w, run)
    requires forall c :: c in cfg.parties ==> Lease(cfg, c) == d
    ensures Inv(cfg, d, w, After(cfg, w, run))
    decreases |run|
  {
    if run != [] {
      InvHolds(cfg, d, w, run[..|run| - 1]);
      InvStep(cfg, d, w, After(cfg, w, run[..|run| - 1]), run[|run| - 1]);
    }
  }

  /** Mutual exclusion over every run, for any number of clients with one common duration. */
  lemma MutualExclusion(cfg: Config, w: real)
    requires w <= PAUSE && EqualDurations(cfg) && OwnNames(cfg) && cfg.atomicEnd && cfg.atomicUnlock
    ensures Safe(cfg, w)
  {
    forall run | Legal(cfg, w, run) ensures Exclusive(After(cfg, w, run)) {
      if c: string :| c in cfg.parties {
        var d := Lease(cfg, c);
        InvHolds(cfg, d, w, run);
        var s := After(cfg, w, run);
        assert forall b :: At(cfg, s, b) ==> ClientInv(cfg, d, s, b);
      } else {
        InvHolds(cfg, 0.0, w, run);
      }
    }
  }

  // ----- calls that nobody interrupts -----

  /** The steps `acts`, one right after the other, lead from `s` to `t`. */
  predicate Leads(cfg: Config, w: real, s: State, acts: seq<Action>, t: State)
    decreases |acts|
  {
    if acts == [] then s == t
    else
      Enabled(cfg, s, acts[0]) &&
      var next := Do(cfg, s, acts[0]);
      SpansBelow(w, next) && Leads(cfg, w, next, acts[1..], t)
  }

  lemma LeadsOne(cfg: Config, w: real, s: State, act: Action, t: State)
    requires Enabled(cfg, s, act) && t == Do(cfg, s, act) && SpansBelow(w, t)
    ensures Leads(cfg, w, s, [act], t)
  {
    assert [act][1..] == [];
  }

  lemma {:induction false} LeadsOn(cfg: Config, w: real, s: State, a: seq<Action>, t: State, b: seq<Action>, u: State)
    requires Leads(cfg, w, s, a, t) && Leads(cfg, w, t, b, u)
    ensures Leads(cfg, w, s, a + b, u)
    decreases |a|
  {
    if a == [] {
      assert a + b == b;
    } else {
      assert (a + b)[1..] == a[1..] + b;
      LeadsOn(cfg, w, Do(cfg, s, a[0]), a[1..], t, b, u);
    }
  }

  /** A run may go on with them. */
  lemma {:induction false} LegalOn(cfg: Config, w: real, run: seq<Action>, acts: seq<Action>, t: State)
    requires Legal(cfg, w, run) && Leads(cfg, w, After(cfg, w, run), acts, t)
    ensures Legal(cfg, w, run + acts) && After(cfg, w, run + acts) == t
    decreases |acts|
  {
    if acts == [] {
      assert run + acts == run;
    } else {
      var longer := run + [acts[0]];
      assert longer[..|longer| - 1] == run;
      assert longer + acts[1..] == run + acts;
      LegalOn(cfg, w, longer, acts[1..], t);
    }
  }

  /** `c` is a client between two calls, and no test has taken too long. */
  predicate Ready(cfg: Config, w: real, s: State, c: string) {
    At(cfg, s, c) && s.clients[c].pc == Idle && SpansBelow(w, s)
  }

  /** The steps of an `unlock` by `c`. */
  function Unlocking(cfg: Config, owns: bool, c: string): seq<Action> {
    if cfg.atomicUnlock then [Unlock(c)]
    else if owns then [BeginUnlock(c)] + [DeleteOwner(c)] + [DeleteEnd(c)]
    else [BeginUnlock(c)]
  }

  /** The owner's unlock empties both registers and gives up the lease. */
  lemma UnlockFrees(cfg: Config, w: real, s: State, c: string) returns (t: State)
    requires Ready(cfg, w, s, c) && s.owner == cfg.parties[c].owner
    ensures Leads(cfg, w, s, Unlocking(cfg, true, c), t)
    ensures t == State(s.now, None, None, s.clients[c := Client(Idle, None)])
  {
    if cfg.atomicUnlock {
      t := Do(cfg, s, Unlock(c));
      LeadsOne(cfg, w, s, Unlock(c), t);
    } else {
      var u, v := Do(cfg, s, BeginUnlock(c)), Do(cfg, Do(cfg, s, BeginUnlock(c)), DeleteOwner(c));
      t := Do(cfg, v, DeleteEnd(c));
      LeadsOne(cfg, w, s, BeginUnlock(c), u);
      LeadsOne(cfg, w, u, DeleteOwner(c), v);
      LeadsOne(cfg, w, v, DeleteEnd(c), t);
      LeadsOn(cfg, w, s, [BeginUnlock(c)], u, [DeleteOwner(c)], v);
      LeadsOn(cfg, w, s, [BeginUnlock(c)] + [DeleteOwner(c)], v, [DeleteEnd(c)], t);
      assert t.clients == s.clients[c := Client(Idle, None)];
    }
  }

  /** Anybody else's unlock changes nothing; so does a second one by a client with a name. */
  lemma UnlockByOther(cfg: Config, w: real, s: State, c: string)
    requires Ready(cfg, w, s, c) && s.owner != cfg.parties[c].owner
    ensures Leads(cfg, w, s, Unlocking(cfg, false, c), s)
  {
    LeadsOne(cfg, w, s, if cfg.atomicUnlock then Unlock(c) else BeginUnlock(c), s);
  }

  /** A forced unlock empties both registers and ends every lease; clients inside a call go on with it. */
  lemma ForceFrees(cfg: Config, w: real, s: State) returns (t: State)
    requires SpansBelow(w, s)
    ensures Leads(cfg, w, s, [ForceUnlock], t)
    ensures t.now == s.now && t.owner == None && t.end == None && t.clients.Keys == s.clients.Keys
    ensures forall c :: c in s.clients ==> t.clients[c] == Client(s.clients[c].pc, None)
  {
    t := Do(cfg, s, ForceUnlock);
    LeadsOne(cfg, w, s, ForceUnlock, t);
  }

  /** A client that, after the pause, reads back another name than its own has not got the lock. */
  lemma LostRace(cfg: Config, w: real, s: State, c: string) returns (t: State)
    requires SpansBelow(w, s) && Enabled(cfg, s, Recheck(c)) && s.owner != cfg.parties[c].owner
    ensures Leads(cfg, w, s, [Recheck(c)], t)
    ensures t == State(s.now, s.owner, s.end, s.clients[c := Client(Idle, s.clients[c].held)])
  {
    t := Do(cfg, s, Recheck(c));
    LeadsOne(cfg, w, s, Recheck(c), t);
  }

  /** Nobody, or nobody else, is the owner, or the lease has no end or has ended. */
  predicate Free(s: State, owner: Option<string>) {
    s.owner == None || s.owner == Some("") || s.owner == owner || s.end == None || s.end.value < s.now
  }

  /** The steps of `test_lock`. */
  function Testing(cfg: Config, s: State, c: string): seq<Action>
    requires c in cfg.parties
  {
    if Passes(s.owner, cfg.parties[c]) then [ReadOwner(c)]
    else if s.end.None? then [ReadOwner(c)] + [ReadEnd(c)]
    else [ReadOwner(c)] + [ReadEnd(c)] + [Compare(c)]
  }

  /** The further steps of a `lock` whose test has passed. */
  function Writing(cfg: Config, c: string): seq<Action> {
    [WriteOwner(c)] + EndWriting(cfg, c) + ([Tick(0.01)] + [Recheck(c)])
  }

  function EndWriting(cfg: Config, c: string): seq<Action> {
    if cfg.atomicEnd then [WriteEnd(c)] else [ComputeEnd(c)] + [StoreEnd(c)]
  }

  lemma TestAnswers(cfg: Config, w: real, s: State, c: string) returns (t: State)
    requires Ready(cfg, w, s, c) && 0.0 < w
    ensures Leads(cfg, w, s, Testing(cfg, s, c), t)
    ensures t == if Free(s, cfg.parties[c].owner) then Goto(s, c, WritingOwner(s.now)) else s
  {
    t := Do(cfg, s, ReadOwner(c));
    LeadsOne(cfg, w, s, ReadOwner(c), t);
    if !Passes(s.owner, cfg.parties[c]) {
      var u := Do(cfg, t, ReadEnd(c));
      LeadsOne(cfg, w, t, ReadEnd(c), u);
      LeadsOn(cfg, w, s, [ReadOwner(c)], t, [ReadEnd(c)], u);
      t := u;
      if s.end.Some? {
        t := Do(cfg, u, Compare(c));
        LeadsOne(cfg, w, u, Compare(c), t);
        LeadsOn(cfg, w, s, [ReadOwner(c)] + [ReadEnd(c)], u, [Compare(c)], t);
      }
    }
    assert s.clients[c := s.clients[c]] == s.clients;
  }

  lemma EndIsWritten(cfg: Config, w: real, s: State, c: string) returns (t: State)
    requires At(cfg, s, c) && s.clients[c].pc.WritingEnd? && SpansBelow(w, s)
    ensures Leads(cfg, w, s, EndWriting(cfg, c), t)
    ensures var lease := s.now + cfg.parties[c].duration as real;
      t == Goto(s, c, Pausing(s.now, lease)).(end := Some(lease))
  {
    if cfg.atomicEnd {
      t := Do(cfg, s, WriteEnd(c));
      LeadsOne(cfg, w, s, WriteEnd(c), t);
    } else {
      var u := Do(cfg, s, ComputeEnd(c));
      t := Do(cfg, u, StoreEnd(c));
      LeadsOne(cfg, w, s, ComputeEnd(c), u);
      LeadsOne(cfg, w, u, StoreEnd(c), t);
      LeadsOn(cfg, w, s, [ComputeEnd(c)], u, [StoreEnd(c)], t);
    }
  }

  /** The pause, and the reading back. */
  lemma PauseLocks(cfg: Config, w: real, s: State, c: string) returns (t: State)
    requires At(cfg, s, c) && s.clients[c].pc.Pausing? && s.clients[c].pc.since == s.now
    requires s.owner == cfg.parties[c].owner && SpansBelow(w, s.(now := s.now + 0.01))
    ensures Leads(cfg, w, s, [Tick(0.01)] + [Recheck(c)], t)
    ensures t == State(s.now + 0.01, s.owner, s.end, s.clients[c := Client(Idle, Some(s.clients[c].pc.lease))])
  {
    var u := Do(cfg, s, Tick(0.01));
    t := Do(cfg, u, Recheck(c));
    LeadsOne(cfg, w, s, Tick(0.01), u);
    LeadsOne(cfg, w, u, Recheck(c), t);
    LeadsOn(cfg, w, s, [Tick(0.01)], u, [Recheck(c)], t);
  }

  /** Nobody but `c` would exceed a span in the pause. */
  predicate Patient(w: real, s: State, c: string) {
    forall b :: b in s.clients && b != c ==> Brief(w, s.now, s.clients[b].pc) && Brief(w, s.now + 0.01, s.clients[b].pc)
  }

  lemma WritingLocks(cfg: Config, w: real, s: State, c: string) returns (t: State)
    requires At(cfg, s, c) && s.clients[c].pc.WritingOwner? && Patient(w, s, c)
    ensures Leads(cfg, w, s, Writing(cfg, c), t)
    ensures var lease := Some(s.now + cfg.parties[c].duration as real);
      t == State(s.now + 0.01, cfg.parties[c].owner, lease, s.clients[c := Client(Idle, lease)])
  {
    var s1 := Do(cfg, s, WriteOwner(c));
    LeadsOne(cfg, w, s, WriteOwner(c), s1);
    var s2 := EndIsWritten(cfg, w, s1, c);
    LeadsOn(cfg, w, s, [WriteOwner(c)], s1, EndWriting(cfg, c), s2);
    t := PauseLocks(cfg, w, s2, c);
    LeadsOn(cfg, w, s, [WriteOwner(c)] + EndWriting(cfg, c), s2, [Tick(0.01)] + [Recheck(c)], t);
  }

  /** The steps of `lock`. */
  function Locking(cfg: Config, s: State, c: string): seq<Action>
    requires c in cfg.parties
  {
    if Free(s, cfg.parties[c].owner) then Testing(cfg, s, c) + Writing(cfg, c) else Testing(cfg, s, c)
  }

  /**
   An undisturbed `lock` succeeds if and only if the lock is free, and then both registers are the caller's;
   otherwise it changes nothing.
   */
  lemma LockAnswers(cfg: Config, w: real, s: State, c: string) returns (t: State)
    requires Ready(cfg, w, s, c) && 0.0 < w && SpansBelow(w, s.(now := s.now + 0.01))
    ensures Leads(cfg, w, s, Locking(cfg, s, c), t)
    ensures var lease := Some(s.now + cfg.parties[c].duration as real);
      t == if Free(s, cfg.parties[c].owner) then
             State(s.now + 0.01, cfg.parties[c].owner, lease, s.clients[c := Client(Idle, lease)])
           else s
  {
    t := TestAnswers(cfg, w, s, c);
    if Free(s, cfg.parties[c].owner) {
      forall b | b in t.clients && b != c
        ensures Brief(w, t.now, t.clients[b].pc) && Brief(w, t.now + 0.01, t.clients[b].pc)
      {
        assert t.clients[b] == s.clients[b] == s.(now := s.now + 0.01).clients[b];
      }
      var u := WritingLocks(cfg, w, t, c);
      LeadsOn(cfg, w, s, Testing(cfg, s, c), t, Writing(cfg, c), u);
      assert t.clients[c := u.clients[c]] == s.clients[c := u.clients[c]];
      t := u;
    }
  }

  /** `a` holds the lock, and both `a` and `b`, which have different names, are between two calls. */
  predicate Held(cfg: Config, w: real, s: State, a: string, b: string) {
    && Ready(cfg, w, s, a) && Ready(cfg, w, s, b) && SpansBelow(w, s.(now := s.now + 0.01)) && a != b
    && cfg.parties[a].owner == s.owner != cfg.parties[b].owner && s.owner !in [None, Some("")]
  }

  /** While the owner's lease lasts, another client's `lock` changes nothing. */
  lemma LockIsRefused(cfg: Config, w: real, run: seq<Action>, a: string, b: string)
    requires Legal(cfg, w, run) && Held(cfg, w, After(cfg, w, run), a, b) && 0.0 < w
    requires var s := After(cfg, w, run); s.end.Some? && s.now <= s.end.value
    ensures var longer := run + Locking(cfg, After(cfg, w, run), b);
      Legal(cfg, w, longer) && After(cfg, w, longer) == After(cfg, w, run)
  {
    var s := After(cfg, w, run);
    var t := LockAnswers(cfg, w, s, b);
    LegalOn(cfg, w, run, Locking(cfg, s, b), t);
  }

  /** Right after the owner has unlocked, the same call succeeds, however long that lease would have lasted. */
  lemma UnlockHandsOver(cfg: Config, w: real, run: seq<Action>, a: string, b: string) returns (t: State)
    requires Legal(cfg, w, run) && Held(cfg, w, After(cfg, w, run), a, b) && 0.0 < w
    ensures var longer := run + (Unlocking(cfg, true, a) + Locking(cfg, Init(cfg), b));
      Legal(cfg, w, longer) && After(cfg, w, longer) == t
    ensures HandedOver(cfg, After(cfg, w, run), a, b, t)
  {
    t := HandOver(cfg, w, After(cfg, w, run), a, b);
    LegalOn(cfg, w, run, Unlocking(cfg, true, a) + Locking(cfg, Init(cfg), b), t);
  }

  /** From `s` to `t` in one pause: `a` holds nothing, `b` holds the lock, and the other clients are where they were. */
  predicate HandedOver(cfg: Config, s: State, a: string, b: string, t: State)
    requires a in cfg.parties && b in cfg.parties
  {
    var lease := Some(s.now + cfg.parties[b].duration as real);
    t == State(s.now + 0.01, cfg.parties[b].owner, lease, s.clients[a := Client(Idle, None)][b := Client(Idle, lease)])
  }

  lemma HandOver(cfg: Config, w: real, s: State, a: string, b: string) returns (t: State)
    requires Held(cfg, w, s, a, b) && 0.0 < w
    ensures Leads(cfg, w, s, Unlocking(cfg, true, a) + Locking(cfg, Init(cfg), b), t)
    ensures HandedOver(cfg, s, a, b, t)
  {
    var freed := UnlockFrees(cfg, w, s, a);
    ghost var later := s.(now := s.now + 0.01);
    forall c | c in freed.clients ensures Brief(w, later.now, freed.clients[c].pc) {
      assert c != a ==> freed.clients[c] == later.clients[c];
    }
    t := LockAnswers(cfg, w, freed, b);
    LeadsOn(cfg, w, s, Unlocking(cfg, true, a), freed, Locking(cfg, freed, b), t);
  }

  // ----- runs of two clients -----

  /** Two clients in the foreground, all others idle since the start. */
  datatype Two = Two(now: real, owner: Option<string>, end: Option<real>, ca: Client, cb: Client)

  function View(cfg: Config, a: string, b: string, v: Two): State {
    State(v.now, v.owner, v.end, Init(cfg).clients[a := v.ca][b := v.cb])
  }

  predicate Pair(cfg: Config, a: string, b: string) {
    a in cfg.parties && b in cfg.parties && a != b
  }

  /** The foreground after a step of one of the two, or of the clock. */
  function Next(cfg: Config, a: string, b: string, v: Two, act: Action): Two
    requires Pair(cfg, a, b) && Enabled(cfg, View(cfg, a, b, v), act)
  {
    var t := Do(cfg, View(cfg, a, b, v), act);
    assert a in t.clients && b in t.clients;
    Two(t.now, t.owner, t.end, t.clients[a], t.clients[b])
  }

  ghost predicate Reached(cfg: Config, w: real, a: string, b: string, v: Two) {
    exists run :: Legal(cfg, w, run) && After(cfg, w, run) == View(cfg, a, b, v)
  }

  lemma NextIsDo(cfg: Config, a: string, b: string, v: Two, act: Action)
    requires Pair(cfg, a, b) && Enabled(cfg, View(cfg, a, b, v), act)
    requires act.Tick? || (!act.ForceUnlock? && (act.c == a || act.c == b))
    ensures Do(cfg, View(cfg, a, b, v), act) == View(cfg, a, b, Next(cfg, a, b, v, act))
  {
    var t, u := Do(cfg, View(cfg, a, b, v), act), View(cfg, a, b, Next(cfg, a, b, v, act));
    assert t.clients == u.clients;
  }

  lemma Go(cfg: Config, w: real, a: string, b: string, v: Two, act: Action) returns (v': Two)
    requires Pair(cfg, a, b) && Reached(cfg, w, a, b, v) && Enabled(cfg, View(cfg, a, b, v), act)
    requires act.Tick? || (!act.ForceUnlock? && (act.c == a || act.c == b))
    requires var t := Next(cfg, a, b, v, act); Brief(w, t.now, t.ca.pc) && Brief(w, t.now, t.cb.pc)
    ensures v' == Next(cfg, a, b, v, act) && Reached(cfg, w, a, b, v')
  {
    v' := Next(cfg, a, b, v, act);
    NextIsDo(cfg, a, b, v, act);
    var run :| Legal(cfg, w, run) && After(cfg, w, run) == View(cfg, a, b, v);
    var longer := run + [act];
    assert longer[..|longer| - 1] == run;
    assert SpansBelow(w, View(cfg, a, b, v'));
    assert After(cfg, w, longer) == View(cfg, a, b, v');
  }

  lemma Start(cfg: Config, w: real, a: string, b: string) returns (v: Two)
    requires Pair(cfg, a, b)
    ensures v == Two(0.0, None, None, Client(Idle, None), Client(Idle, None)) && Reached(cfg, w, a, b, v)
  {
    v := Two(0.0, None, None, Client(Idle, None), Client(Idle, None));
    assert View(cfg, a, b, v).clients == Init(cfg).clients;
    assert Legal(cfg, w, []) && After(cfg, w, []) == View(cfg, a, b, v);
  }

  lemma Refutes(cfg: Config, w: real, a: string, b: string, v: Two)
    requires Pair(cfg, a, b) && Reached(cfg, w, a, b, v)
    requires v.ca.held.Some? && v.now <= v.ca.held.value && v.cb.held.Some? && v.now <= v.cb.held.value
    ensures !Safe(cfg, w)
  {
    var run :| Legal(cfg, w, run) && After(cfg, w, run) == View(cfg, a, b, v);
    assert Live(View(cfg, a, b, v), a) && Live(View(cfg, a, b, v), b);
    assert !Exclusive(After(cfg, w, run));
  }

  lemma Swap(cfg: Config, w: real, a: string, b: string, v: Two)
    requires Pair(cfg, a, b) && Reached(cfg, w, a, b, v)
    ensures Reached(cfg, w, b, a, v.(ca := v.cb, cb := v.ca))
  {
    assert View(cfg, b, a, v.(ca := v.cb, cb := v.ca)).clients == View(cfg, a, b, v).clients;
  }

  function OwnerOf(cfg: Config, c: string): Option<string>
    requires c in cfg.parties
  {
    cfg.parties[c].owner
  }

  /** The end time is written without delay, whether in one step or in two. */
  lemma PutEnd(cfg: Config, w: real, a: string, b: string, v: Two) returns (v': Two)
    requires Pair(cfg, a, b) && Reached(cfg, w, a, b, v)
    requires v.ca.pc.WritingEnd? && Brief(w, v.now, v.cb.pc)
    ensures Reached(cfg, w, a, b, v')
    ensures v' == v.(end := Some(v.now + Lease(cfg, a)), ca := v.ca.(pc := Pausing(v.now, v.now + Lease(cfg, a))))
  {
    if cfg.atomicEnd {
      v' := Go(cfg, w, a, b, v, WriteEnd(a));
    } else {
      var v1 := Go(cfg, w, a, b, v, ComputeEnd(a));
      v' := Go(cfg, w, a, b, v1, StoreEnd(a));
    }
  }

  /** A client that passed its test acquires the lock while the other stays put. */
  lemma Finish(cfg: Config, w: real, a: string, b: string, v: Two) returns (v': Two)
    requires Pair(cfg, a, b) && Reached(cfg, w, a, b, v)
    requires v.ca.pc.WritingOwner? && Brief(w, v.now, v.cb.pc) && Brief(w, v.now + PAUSE, v.cb.pc)
    ensures Reached(cfg, w, a, b, v')
    ensures v' == HeldBy(cfg, a, v)
  {
    var v1 := Go(cfg, w, a, b, v, WriteOwner(a));
    var v2 := PutEnd(cfg, w, a, b, v1);
    var v3 := Go(cfg, w, a, b, v2, Tick(PAUSE));
    v' := Go(cfg, w, a, b, v3, Recheck(a));
  }

  /** After `a` has written both registers at once, paused, and found itself the owner. */
  function HeldBy(cfg: Config, a: string, v: Two): Two
    requires a in cfg.parties
  {
    var lease := Some(v.now + Lease(cfg, a));
    Two(v.now + PAUSE, OwnerOf(cfg, a), lease, Client(Idle, lease), v.cb)
  }

  lemma Acquire(cfg: Config, w: real, a: string, b: string, v: Two) returns (v': Two)
    requires Pair(cfg, a, b) && Reached(cfg, w, a, b, v) && 0.0 < w
    requires v.ca.pc == Idle && Passes(v.owner, cfg.parties[a])
    requires Brief(w, v.now, v.cb.pc) && Brief(w, v.now + PAUSE, v.cb.pc)
    ensures Reached(cfg, w, a, b, v')
    ensures v' == HeldBy(cfg, a, v)
  {
    var v1 := Go(cfg, w, a, b, v, ReadOwner(a));
    v' := Finish(cfg, w, a, b, v1);
  }

  function Flip(v: Two): Two {
    v.(ca := v.cb, cb := v.ca)
  }

  /** The test passes at once if the end time has expired, or if there is no other owner. */
  lemma PassTest(cfg: Config, w: real, a: string, b: string, v: Two) returns (v': Two)
    requires Pair(cfg, a, b) && Reached(cfg, w, a, b, v) && 0.0 < w
    requires v.ca.pc == Idle && Brief(w, v.now, v.cb.pc)
    requires Passes(v.owner, cfg.parties[a]) || (v.end.Some? && v.end.value < v.now)
    ensures Reached(cfg, w, a, b, v') && v' == v.(ca := v.ca.(pc := WritingOwner(v.now)))
  {
    v' := Go(cfg, w, a, b, v, ReadOwner(a));
    if v'.ca.pc.ReadingEnd? {
      var v1 := Go(cfg, w, a, b, v', ReadEnd(a));
      v' := Go(cfg, w, a, b, v1, Compare(a));
    }
  }

  /** The second client acquires the lock. */
  lemma TakeOver(cfg: Config, w: real, a: string, b: string, v: Two) returns (v': Two)
    requires Pair(cfg, a, b) && Reached(cfg, w, a, b, v) && 0.0 < w
    requires v.cb.pc == Idle
    requires Passes(v.owner, cfg.parties[b]) || (v.end.Some? && v.end.value < v.now)
    requires v.ca.pc.Idle? || v.ca.pc.DeletingOwner?
    ensures Reached(cfg, w, a, b, v')
    ensures v' == Flip(HeldBy(cfg, b, Flip(v)))
  {
    Swap(cfg, w, a, b, v);
    var v1 := PassTest(cfg, w, b, a, Flip(v));
    var v2 := Finish(cfg, w, b, a, v1);
    Swap(cfg, w, b, a, v2);
    v' := Flip(v2);
  }

  /** A test that may take as long as the pause lets a second client in behind the first. */
  lemma SlowTestUnsafe(cfg: Config, w: real, a: string, b: string)
    requires Pair(cfg, a, b) && cfg.parties[a].duration > 0 && cfg.parties[b].duration > 0
    requires w > 0.01
    ensures !Safe(cfg, w)
  {
    var v0 := Start(cfg, w, a, b);
    var v1 := Go(cfg, w, a, b, v0, ReadOwner(b));
    var v2 := Acquire(cfg, w, a, b, v1);
    Swap(cfg, w, a, b, v2);
    var v3 := Finish(cfg, w, b, a, Flip(v2));
    Refutes(cfg, w, b, a, v3);
  }

  /** A name that another client takes for its own, or for no name, does not keep that client out. */
  lemma SharedNameUnsafe(cfg: Config, w: real, a: string, b: string)
    requires Pair(cfg, a, b) && cfg.parties[a].duration > 0 && cfg.parties[b].duration > 0
    requires 0.0 < w && Passes(OwnerOf(cfg, a), cfg.parties[b])
    ensures !Safe(cfg, w)
  {
    var v0 := Start(cfg, w, a, b);
    var v1 := Acquire(cfg, w, a, b, v0);
    var v2 := TakeOver(cfg, w, a, b, v1);
    Refutes(cfg, w, a, b, v2);
  }

  /** Both clients find the lock free; `a` writes its name last. */
  lemma BothWrite(cfg: Config, w: real, a: string, b: string) returns (v: Two)
    requires Pair(cfg, a, b) && 0.0 < w
    ensures Reached(cfg, w, a, b, v)
    ensures v == Two(0.0, OwnerOf(cfg, a), None, Client(WritingEnd, None), Client(WritingEnd, None))
  {
    var v0 := Start(cfg, w, a, b);
    var v1 := Go(cfg, w, a, b, v0, ReadOwner(a));
    var v2 := Go(cfg, w, a, b, v1, ReadOwner(b));
    var v3 := Go(cfg, w, a, b, v2, WriteOwner(b));
    v := Go(cfg, w, a, b, v3, WriteOwner(a));
  }

  /** Both are about to read the owner back, `a` is the owner, and the end time is that of `b`. */
  lemma LoserUndercuts(cfg: Config, w: real, a: string, b: string, v: Two)
    requires Pair(cfg, a, b) && Reached(cfg, w, a, b, v) && 0.0 < w
    requires v.owner == OwnerOf(cfg, a) != OwnerOf(cfg, b)
    requires v.ca.pc.Pausing? && v.cb.pc.Pausing? && v.ca.pc.since <= v.now && v.cb.pc.since <= v.now
    requires v.end == Some(v.cb.pc.lease) && v.now + PAUSE < v.cb.pc.lease + 0.005
    requires v.cb.pc.lease + 0.005 + PAUSE <= v.ca.pc.lease && cfg.parties[b].duration > 0
    ensures !Safe(cfg, w)
  {
    var v1 := Go(cfg, w, a, b, v, Tick(PAUSE));
    var v2 := Go(cfg, w, a, b, v1, Recheck(a));
    var v3 := Go(cfg, w, a, b, v2, Recheck(b));
    var v4 := Go(cfg, w, a, b, v3, Tick(v.cb.pc.lease + 0.005 - v1.now));
    var v5 := TakeOver(cfg, w, a, b, v4);
    Refutes(cfg, w, a, b, v5);
  }

  /** A loser with a shorter duration cuts the winner's lease short in the register. */
  lemma UnequalDurationsUnsafe(cfg: Config, w: real, a: string, b: string)
    requires Pair(cfg, a, b) && cfg.parties[a].duration > cfg.parties[b].duration > 0
    requires 0.0 < w && OwnNames(cfg)
    ensures !Safe(cfg, w)
  {
    var v1 := BothWrite(cfg, w, a, b);
    var v2 := PutEnd(cfg, w, a, b, v1);
    Swap(cfg, w, a, b, v2);
    var v3 := PutEnd(cfg, w, b, a, Flip(v2));
    Swap(cfg, w, b, a, v3);
    assert cfg.parties[a].duration >= cfg.parties[b].duration + 1;
    LoserUndercuts(cfg, w, a, b, Flip(v3));
  }

  /** A loser that computes its end time early and writes it late does so too, with any durations. */
  lemma SplitEndUnsafe(cfg: Config, w: real, a: string, b: string)
    requires Pair(cfg, a, b) && cfg.parties[a].duration >= cfg.parties[b].duration > 0
    requires 0.0 < w && OwnNames(cfg) && !cfg.atomicEnd
    ensures !Safe(cfg, w)
  {
    var v1 := BothWrite(cfg, w, a, b);
    var v2 := Go(cfg, w, a, b, v1, ComputeEnd(b));
    var v3 := Go(cfg, w, a, b, v2, Tick(2.0 * PAUSE));
    var v4 := PutEnd(cfg, w, a, b, v3);
    var v5 := Go(cfg, w, a, b, v4, StoreEnd(b));
    LoserUndercuts(cfg, w, a, b, v5);
  }

  /** An unlock that stalls between its read and its deletions deletes a later owner's lock. */
  lemma SplitUnlockUnsafe(cfg: Config, w: real, a: string, b: string)
    requires Pair(cfg, a, b) && cfg.parties[a].duration > 0 && cfg.parties[b].duration > 0
    requires 0.0 < w && !cfg.atomicUnlock
    ensures !Safe(cfg, w)
  {
    var v0 := Start(cfg, w, a, b);
    var v1 := Acquire(cfg, w, a, b, v0);
    var v2 := Go(cfg, w, a, b, v1, BeginUnlock(a));
    var v3 := Go(cfg, w, a, b, v2, Tick(Lease(cfg, a)));
    var v4 := TakeOver(cfg, w, a, b, v3);
    var v5 := Go(cfg, w, a, b, v4, DeleteOwner(a));
    var v6 := Go(cfg, w, a, b, v5, DeleteEnd(a));
    var v7 := Acquire(cfg, w, a, b, v6);
    Refutes(cfg, w, a, b, v7);
  }

  /**
   With at least two clients and positive durations, the lock excludes in every run exactly when the spans
   from test to write stay below the pause, every client has a name of its own, all durations are equal, the
   end time is computed and written in one step, and so is unlocking.
   */
  lemma SafeExactlyWhen(cfg: Config, w: real, a: string, b: string)
    requires Pair(cfg, a, b) && 0.0 < w
    requires forall c :: c in cfg.parties ==> cfg.parties[c].duration > 0
    ensures Safe(cfg, w) <==>
            w <= 0.01 && OwnNames(cfg) && EqualDurations(cfg) && cfg.atomicEnd && cfg.atomicUnlock
  {
    if w > PAUSE {
      SlowTestUnsafe(cfg, w, a, b);
    } else if !OwnNames(cfg) {
      if c :| c in cfg.parties && Blank(cfg.parties[c].owner) {
        SharedNameUnsafe(cfg, w, c, if c == a then b else a);
      } else {
        var c, d :| c in cfg.parties && d in cfg.parties && c != d && cfg.parties[c].owner == cfg.parties[d].owner;
        SharedNameUnsafe(cfg, w, c, d);
      }
    } else if !EqualDurations(cfg) {
      var c, d :| c in cfg.parties && d in cfg.parties && cfg.parties[c].duration > cfg.parties[d].duration;
      UnequalDurationsUnsafe(cfg, w, c, d);
    } else if !cfg.atomicEnd {
      SplitEndUnsafe(cfg, w, a, b);
    } else if !cfg.atomicUnlock {
      SplitUnlockUnsafe(cfg, w, a, b);
    } else {
      MutualExclusion(cfg, w);
    }
  }
}
