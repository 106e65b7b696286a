/** Fault points: when each kind triggers over a whole run of checks, and the table that holds them. */
module Faults {
  import opened Wrappers

  const COUNT_LIMIT := 0x1_0000_0000
  const INITIAL_SIZE := 256

  // ----- one fault point -----

  datatype Kind = Once | Always | Repeat | Skip

  datatype Spec = Spec(kind: Kind, hitStart: nat, hitEnd: nat)

  /** A registered point: how often it was checked (32 bits), and whether a ONCE point has triggered. */
  datatype Point = Point(spec: Spec, enabled: bool, hitCount: nat, hitOnce: bool)

  datatype Event = Check | Enable | Disable

  /** The handler of the point's kind, on a point whose count is up to date. */
  predicate Triggers(p: Point) {
    match p.spec.kind
    case Once => p.hitCount >= p.spec.hitStart && !p.hitOnce
    case Always => p.hitCount >= p.spec.hitStart
    case Repeat => p.hitCount >= p.spec.hitStart && p.hitCount <= p.spec.hitEnd
    case Skip => !(p.hitCount >= p.spec.hitStart && p.hitCount <= p.spec.hitEnd)
  }

  /** `fault_enabled`, `fault_enable` and `fault_disable`; the flag is what a check answers. */
  function Step(p: Point, e: Event): (Point, bool) {
    match e
    case Enable => (p.(enabled := true), false)
    case Disable => (p.(enabled := false), false)
    case Check =>
      var q := p.(hitCount := (p.hitCount + 1) % COUNT_LIMIT);
      if !q.enabled then (q, false)
      else (q.(hitOnce := q.hitOnce || (q.spec.kind.Once? && Triggers(q))), Triggers(q))
  }

  /** A point as `fault_register` leaves it; it may have been enabled before. */
  function Registered(spec: Spec, enabled: bool): Point {
    Point(spec, enabled, 0, false)
  }

  function After(p: Point, run: seq<Event>): Point {
    if run == [] then p else Step(After(p, run[..|run| - 1]), run[|run| - 1]).0
  }

  predicate Fires(p: Point, run: seq<Event>, i: nat)
    requires i < |run|
  {
    Step(After(p, run[..i]), run[i]).1
  }

  // ----- what a run means, without the point's state -----

  /** The number of checks in a run. */
  function Checks(run: seq<Event>): nat {
    if run == [] then 0 else Checks(run[..|run| - 1]) + if run[|run| - 1].Check? then 1 else 0
  }

  /** Whether the point is enabled after a run: the last switch decides. */
  predicate EnabledAfter(enabled: bool, run: seq<Event>) {
    if run == [] then enabled
    else match run[|run| - 1]
      case Check => EnabledAfter(enabled, run[..|run| - 1])
      case Enable => true
      case Disable => false
  }

  /** Event `i` is a check of the enabled point; its number is counted in 32 bits. */
  predicate EnabledCheck(enabled: bool, run: seq<Event>, i: nat)
    requires i < |run|
  {
    run[i].Check? && EnabledAfter(enabled, run[..i])
  }

  function Number(run: seq<Event>, i: nat): nat
    requires i < |run|
  {
    (Checks(run[..i]) + 1) % COUNT_LIMIT
  }

  /** An enabled check numbered at or above the start. */
  predicate Due(spec: Spec, enabled: bool, run: seq<Event>, i: nat)
    requires i < |run|
  {
    EnabledCheck(enabled, run, i) && Number(run, i) >= spec.hitStart
  }

  /** What each kind promises about event `i` of a run. */
  predicate Promised(spec: Spec, enabled: bool, run: seq<Event>, i: nat)
    requires i < |run|
  {
    match spec.kind
    case Once => Due(spec, enabled, run, i) && forall j :: 0 <= j < i ==> !Due(spec, enabled, run, j)
    case Always => Due(spec, enabled, run, i)
    case Repeat => Due(spec, enabled, run, i) && Number(run, i) <= spec.hitEnd
    case Skip => EnabledCheck(enabled, run, i) && !(Number(run, i) >= spec.hitStart && Number(run, i) <= spec.hitEnd)
  }

  lemma {:induction false} StateAfter(spec: Spec, enabled: bool, run: seq<Event>)
    ensures var p := After(Registered(spec, enabled), run);
      && p.spec == spec
      && p.hitCount == Checks(run) % COUNT_LIMIT
      && p.enabled == EnabledAfter(enabled, run)
      && (spec.kind.Once? ==> (p.hitOnce <==> exists j :: 0 <= j < |run| && Due(spec, enabled, run, j)))
    decreases |run|
  {
    if run != [] {
      var n := |run| - 1;
      var before := run[..n];
      StateAfter(spec, enabled, before);
      OneMoreDue(spec, enabled, run);
    }
  }

  lemma OneMoreDue(spec: Spec, enabled: bool, run: seq<Event>)
    requires run != []
    ensures var n := |run| - 1;
      (exists j :: 0 <= j < |run| && Due(spec, enabled, run, j)) <==>
      (exists j :: 0 <= j < n && Due(spec, enabled, run[..n], j)) || Due(spec, enabled, run, n)
  {
    var n := |run| - 1;
    forall j | 0 <= j < n ensures Due(spec, enabled, run[..n], j) == Due(spec, enabled, run, j) {
      assert run[..n][..j] == run[..j];
    }
    if j :| 0 <= j < |run| && Due(spec, enabled, run, j) {
      if j < n {
        assert Due(spec, enabled, run[..n], j);
      }
    }
    if j :| 0 <= j < n && Due(spec, enabled, run[..n], j) {
      assert Due(spec, enabled, run, j);
    }
  }

  /** The state that event `i` of a run finds. */
  lemma StateAt(spec: Spec, enabled: bool, run: seq<Event>, i: nat)
    requires i < |run|
    ensures var p := After(Registered(spec, enabled), run[..i]);
      && p.spec == spec
      && p.hitCount == Checks(run[..i]) % COUNT_LIMIT
      && p.enabled == EnabledAfter(enabled, run[..i])
      && (spec.kind.Once? ==> (p.hitOnce <==> exists j :: 0 <= j < i && Due(spec, enabled, run, j)))
  {
    var before := run[..i];
    StateAfter(spec, enabled, before);
    forall j | 0 <= j < i ensures Due(spec, enabled, before, j) == Due(spec, enabled, run, j) {
      assert before[..j] == run[..j];
    }
  }

  /** Over every run of checks, enables and disables, a point fires exactly when its kind promises. */
  lemma FiresAsPromised(spec: Spec, enabled: bool, run: seq<Event>, i: nat)
    requires i < |run|
    ensures Fires(Registered(spec, enabled), run, i) <==> Promised(spec, enabled, run, i)
  {
    StateAt(spec, enabled, run, i);
    NextCount(Checks(run[..i]));
  }

  /** The same in fewer than 2^32 checks, where the number of a check is how many there have been. */
  lemma FiresBelowWrap(spec: Spec, enabled: bool, run: seq<Event>, i: nat)
    requires i < |run| && Checks(run) < 0x1_0000_0000
    ensures var k := Checks(run[..i]) + 1;
      Fires(Registered(spec, enabled), run, i) <==>
      run[i].Check? && EnabledAfter(enabled, run[..i]) &&
      match spec.kind
      case Always => spec.hitStart <= k
      case Repeat => spec.hitStart <= k <= spec.hitEnd
      case Skip => k < spec.hitStart || spec.hitEnd < k
      case Once => spec.hitStart <= k && forall j :: 0 <= j < i ==> !CountedFrom(spec.hitStart, enabled, run, j)
  {
    FiresAsPromised(spec, enabled, run, i);
    forall j | 0 <= j <= i ensures Due(spec, enabled, run, j) == CountedFrom(spec.hitStart, enabled, run, j) {
      DueBelowWrap(spec, enabled, run, j);
    }
    DueBelowWrap(spec, enabled, run, i);
  }

  /** Event `j` is a check of the enabled point, and at least the `n`-th check of all. */
  predicate CountedFrom(n: nat, enabled: bool, run: seq<Event>, j: nat)
    requires j < |run|
  {
    run[j].Check? && EnabledAfter(enabled, run[..j]) && n <= Checks(run[..j]) + 1
  }

  lemma DueBelowWrap(spec: Spec, enabled: bool, run: seq<Event>, j: nat)
    requires j < |run| && Checks(run) < 0x1_0000_0000
    ensures Due(spec, enabled, run, j) == CountedFrom(spec.hitStart, enabled, run, j)
    ensures run[j].Check? ==> Number(run, j) == Checks(run[..j]) + 1
  {
    ChecksMonotone(run, j);
  }

  lemma NextCount(n: nat)
    ensures (n % COUNT_LIMIT + 1) % COUNT_LIMIT == (n + 1) % COUNT_LIMIT
  {
  }

  lemma {:induction false} ChecksMonotone(run: seq<Event>, i: nat)
    requires i <= |run|
    ensures Checks(run[..i]) <= Checks(run)
    ensures i < |run| && run[i].Check? ==> Checks(run[..i]) < Checks(run)
    decreases |run|
  {
    if i < |run| {
      var before := run[..|run| - 1];
      ChecksMonotone(before, i);
      assert before[..i] == run[..i];
    } else {
      assert run[..i] == run;
    }
  }

  /** A ONCE point never fires twice, whatever the length of the run. */
  lemma OnceFiresOnce(spec: Spec, enabled: bool, run: seq<Event>, i: nat, j: nat)
    requires spec.kind.Once? && i < j < |run|
    requires Fires(Registered(spec, enabled), run, i)
    ensures !Fires(Registered(spec, enabled), run, j)
  {
    FiresAsPromised(spec, enabled, run, i);
    FiresAsPromised(spec, enabled, run, j);
  }

  /** A ONCE point that has just fired is not disabled. */
  lemma OnceStaysEnabled(spec: Spec, enabled: bool, run: seq<Event>, i: nat)
    requires spec.kind.Once? && i < |run| && Fires(Registered(spec, enabled), run, i)
    ensures After(Registered(spec, enabled), run[..i + 1]).enabled
  {
    FiresAsPromised(spec, enabled, run, i);
    StateAfter(spec, enabled, run[..i + 1]);
    assert run[..i + 1][..i] == run[..i];
  }

  // ----- the cycle of a REPEAT point -----

  /**
   A cycle of N silent checks and M that fire, over and over, where `hitStart` is N + 1 and `hitEnd` is
   N + M.
   */
  predicate CycleFires(spec: Spec, enabled: bool, run: seq<Event>, i: nat)
    requires i < |run| && spec.hitEnd > 0
  {
    EnabledCheck(enabled, run, i) && Checks(run[..i]) % spec.hitEnd + 1 >= spec.hitStart
  }

  /** In every run of at most `l` checks the point fires as the cycle does. */
  ghost predicate CyclesFor(spec: Spec, enabled: bool, l: nat)
    requires spec.hitEnd > 0
  {
    forall run: seq<Event>, i :: 0 <= i < |run| && Checks(run) <= l ==>
      (Fires(Registered(spec, enabled), run, i) <==> CycleFires(spec, enabled, run, i))
  }

  /** A REPEAT point follows the cycle exactly until it should fire for the first time in the second round. */
  lemma RepeatCyclesExactlyFor(spec: Spec, enabled: bool, l: nat)
    requires spec.kind.Repeat? && 1 <= spec.hitStart <= spec.hitEnd < COUNT_LIMIT
    ensures CyclesFor(spec, enabled, l) <==> l < spec.hitStart + spec.hitEnd
  {
    if l < spec.hitStart + spec.hitEnd {
      forall run: seq<Event>, i | 0 <= i < |run| && Checks(run) <= l
        ensures Fires(Registered(spec, enabled), run, i) <==> CycleFires(spec, enabled, run, i)
      {
        FiresAsPromised(spec, enabled, run, i);
        ChecksMonotone(run, i);
        if run[i].Check? {
          SecondRound(Checks(run[..i]), spec.hitEnd);
          WindowBelow(Checks(run[..i]) + 1, spec.hitStart, spec.hitEnd);
        }
      }
    } else {
      var n := spec.hitStart + spec.hitEnd;
      var run := Hits(n);
      LastHit(enabled, n);
      FiresAsPromised(spec, enabled, run, n);
      SecondRound(n - 1, spec.hitEnd);
      WindowBelow(n, spec.hitStart, spec.hitEnd);
      assert !Fires(Registered(spec, enabled), run, n) && CycleFires(spec, enabled, run, n);
    }
  }

  lemma SecondRound(k: nat, n: nat)
    requires 0 < n && k < 2 * n
    ensures k % n == if k < n then k else k - n
  {
    if k >= n {
      assert (k - n + n) % n == (k - n) % n;
    }
  }

  /** Up to the first window after a wrap, the wrapped count is in the window exactly when the count is. */
  lemma WindowBelow(k: nat, from: nat, to: nat)
    requires k <= from + to && 1 <= from <= to < COUNT_LIMIT
    ensures from <= k % COUNT_LIMIT <= to <==> from <= k <= to
  {
    SecondRound(k, COUNT_LIMIT);
  }

  /** Switching a point on and checking it `n` times. */
  function Hits(n: nat): (run: seq<Event>)
    ensures |run| == n + 1
  {
    [Enable] + seq(n, _ => Check)
  }

  lemma {:induction false} LastHit(enabled: bool, n: nat)
    ensures Checks(Hits(n)) == n && EnabledAfter(enabled, Hits(n))
    ensures n > 0 ==> EnabledCheck(enabled, Hits(n), n) && Checks(Hits(n)[..n]) == n - 1
  {
    if n > 0 {
      LastHit(enabled, n - 1);
      assert Hits(n)[..n] == Hits(n - 1);
    } else {
      assert Hits(0)[..0] == [] && Hits(0) == [Enable];
    }
  }

  /** In fewer than 2^32 checks a REPEAT point has one window and does not start over. */
  lemma RepeatDoesNotCycle(spec: Spec, enabled: bool, run: seq<Event>, i: nat)
    requires spec.kind.Repeat? && i < |run| && Checks(run) < 0x1_0000_0000
    ensures Fires(Registered(spec, enabled), run, i) <==>
            EnabledCheck(enabled, run, i) && spec.hitStart <= Checks(run[..i]) + 1 <= spec.hitEnd
  {
    FiresAsPromised(spec, enabled, run, i);
    ChecksMonotone(run, i);
  }

  /** With 2^32 checks more, the count has wrapped and the point fires again. */
  lemma RepeatWraps(spec: Spec, enabled: bool)
    requires spec.kind.Repeat? && 1 <= spec.hitStart <= spec.hitEnd < COUNT_LIMIT
    ensures Fires(Registered(spec, enabled), Hits(spec.hitStart), spec.hitStart)
    ensures var m := 0x1_0000_0000 + spec.hitStart; Fires(Registered(spec, enabled), Hits(m), m)
  {
    var n, m := spec.hitStart, COUNT_LIMIT + spec.hitStart;
    LastHit(enabled, n);
    LastHit(enabled, m);
    FiresAsPromised(spec, enabled, Hits(n), n);
    FiresAsPromised(spec, enabled, Hits(m), m);
    SecondRound(m, COUNT_LIMIT);
  }

  // ----- the table -----

  datatype Id = Id(func: string, tag: string)

  /** A slot of the table; `point` is absent until the fault point is registered. */
  datatype Slot = Slot(id: Id, enabled: bool, point: Option<Point>)

  predicate Consistent(s: Slot) {
    s.point.Some? ==> s.point.value.enabled == s.enabled
  }

  /** The slot after an event; a check needs a registered point, switching does not. */
  function SlotStep(s: Slot, e: Event): Slot
    requires e.Check? ==> s.point.Some?
  {
    if s.point.Some? then var p := Step(s.point.value, e).0; s.(enabled := p.enabled, point := Some(p))
    else s.(enabled := e.Enable?)
  }

  /** The slot after a run of events, in which only a registered point is checked. */
  function SlotAfter(s: Slot, run: seq<Event>): (r: Slot)
    requires s.point.None? ==> Check !in run
    ensures r.point.Some? == s.point.Some?
  {
    if run == [] then s else SlotStep(SlotAfter(s, run[..|run| - 1]), run[|run| - 1])
  }

  /** Switching an unregistered point is remembered for its registration. */
  lemma {:induction false} SwitchedSlot(id: Id, before: seq<Event>)
    requires Check !in before
    ensures SlotAfter(Slot(id, false, None), before) == Slot(id, EnabledAfter(false, before), None)
    decreases |before|
  {
    if before != [] {
      SwitchedSlot(id, before[..|before| - 1]);
    }
  }

  lemma {:induction false} RegisteredSlot(id: Id, spec: Spec, enabled: bool, run: seq<Event>)
    ensures SlotAfter(Slot(id, enabled, Some(Registered(spec, enabled))), run) ==
            Slot(id, EnabledAfter(enabled, run), Some(After(Registered(spec, enabled), run)))
    decreases |run|
  {
    StateAfter(spec, enabled, run);
    if run != [] {
      RegisteredSlot(id, spec, enabled, run[..|run| - 1]);
    }
  }

  /**
   A slot over its whole life: switched by the events `before`, registered as `spec`, then put through `run`. It
   fires at event `i` if and only if its kind promises so for the last switch before the registration.
   */
  lemma SlotFires(id: Id, spec: Spec, before: seq<Event>, run: seq<Event>, i: nat)
    requires Check !in before && i < |run|
    ensures var s := SlotAfter(Slot(id, false, None), before);
      var r := SlotAfter(s.(point := Some(Registered(spec, s.enabled))), run[..i]);
      && s.point == None && r.id == id && r.enabled == EnabledAfter(false, before + run[..i])
      && (Step(r.point.value, run[i]).1 <==> Promised(spec, EnabledAfter(false, before), run, i))
  {
    var enabled := EnabledAfter(false, before);
    SwitchedSlot(id, before);
    RegisteredSlot(id, spec, enabled, run[..i]);
    FiresAsPromised(spec, enabled, run, i);
    EnabledConcat(false, before, run[..i]);
  }

  lemma {:induction false} EnabledConcat(enabled: bool, a: seq<Event>, b: seq<Event>)
    ensures EnabledAfter(enabled, a + b) == EnabledAfter(EnabledAfter(enabled, a), b)
    decreases |b|
  {
    if b == [] {
      assert a + b == a;
    } else {
      assert (a + b)[..|a + b| - 1] == a + b[..|b| - 1];
      EnabledConcat(enabled, a, b[..|b| - 1]);
    }
  }

  const Unused := Slot(Id("", ""), false, None)

  /** The ids in the table after one lookup, and after a series of them. */
  function Insert(ids: seq<Id>, id: Id): seq<Id> {
    if id in ids then ids else ids + [id]
  }

  function IdsAfter(requests: seq<Id>): seq<Id> {
    if requests == [] then [] else Insert(IdsAfter(requests[..|requests| - 1]), requests[|requests| - 1])
  }

  predicate Distinct(ids: seq<Id>) {
    forall i, j :: 0 <= i < j < |ids| ==> ids[i] != ids[j]
  }

  /** The lookup of request `k` stays inside a list of `capacity` slots. */
  predicate Fits(requests: seq<Id>, capacity: nat, k: nat)
    requires k < |requests|
  {
    requests[k] in IdsAfter(requests[..k]) || |IdsAfter(requests[..k])| < capacity
  }

  /** The slots `found` hold the ids requested first. */
  predicate Locates(ids: seq<Id>, requests: seq<Id>, found: seq<nat>) {
    |found| <= |requests| && forall k :: 0 <= k < |found| ==> found[k] < |ids| && ids[found[k]] == requests[k]
  }

  lemma LocatesOneMore(ids: seq<Id>, requests: seq<Id>, found: seq<nat>, slot: nat)
    requires Locates(ids, requests, found) && |found| < |requests|
    requires var more := Insert(ids, requests[|found|]); slot < |more| && more[slot] == requests[|found|]
    ensures Locates(Insert(ids, requests[|found|]), requests, found + [slot])
  {
  }

  class FaultTable {
    var list: array<Slot>
    var idx: nat
    var size: nat
    /**
     Whether growth reaches the table's list. `fp_table_realloc_states` does not store the block that `realloc`
     returns, so this is so only where `realloc` extends the block in place.
     */
    const listGrows: bool

    ghost predicate Valid()
      reads this, list
    {
      && 0 < list.Length <= size && idx <= list.Length
      && (listGrows ==> list.Length == size)
      && Distinct(Ids())
      && forall i :: 0 <= i < idx ==> Consistent(list[i])
    }

    ghost function Ids(): seq<Id>
      requires idx <= list.Length
      reads this, list
    {
      seq(idx, i requires 0 <= i < idx <= list.Length reads this, list => list[i].id)
    }

    /** `fp_table_init` */
    constructor (listGrows: bool)
      ensures Valid() && Ids() == [] && this.listGrows == listGrows && list.Length == 256 && fresh(list)
    {
      this.listGrows := listGrows;
      list := new Slot[INITIAL_SIZE](_ => Unused);
      idx, size := 0, INITIAL_SIZE;
    }

    /** `fp_table_realloc_states`: doubles the recorded size and allocates the block. */
    method Grow()
      requires Valid() && idx == size
      modifies this`size, this`list
      ensures size == 2 * old(size) && idx <= list.Length
      ensures if listGrows then list.Length == size && fresh(list) else list == old(list)
      ensures list[..idx] == old(list[..idx])
    {
      size := 2 * size;
      var grown := new Slot[size](_ => Unused);
      for i := 0 to idx
        invariant list == old(list) && size == 2 * old(size) && list[..] == old(list[..])
        invariant forall j :: 0 <= j < i ==> grown[j] == list[j]
      {
        grown[i] := list[i];
      }
      if listGrows {
        list := grown;
      }
    }

    /**
     `fp_state_find`: the slot of an id, appended if it is new. None stands for a slot outside the
     table's list, which happens exactly for a new id in a full list that growth does not replace.
     */
    method Find(id: Id) returns (slot: Option<nat>)
      requires Valid()
      modifies this, list
      ensures slot == None <==> id !in old(Ids()) && !listGrows && old(idx) == old(list.Length)
      ensures slot.Some? ==> Valid() && Ids() == Insert(old(Ids()), id)
      ensures slot.Some? ==> slot.value < idx && list[slot.value].id == id && Ids()[slot.value] == id
      ensures slot.Some? ==> list[..old(idx)] == old(list[..idx])
      ensures slot.Some? && id !in old(Ids()) ==> list[slot.value] == Slot(id, false, None)
      ensures list == old(list) || (listGrows && fresh(list))
    {
      for i := 0 to idx
        invariant forall j :: 0 <= j < i ==> list[j].id != id
        invariant list == old(list) && idx == old(idx) && size == old(size) && list[..] == old(list[..])
      {
        if list[i].id == id {
          assert Ids()[i] == id;
          return Some(i);
        }
      }
      ghost var ids := Ids();
      assert id !in ids;
      if idx == size {
        Grow();
      }
      if idx >= list.Length {
        return None;
      }
      assert forall j :: 0 <= j < idx ==> list[j] == list[..idx][j] == old(list[..idx])[j];
      list[idx] := Slot(id, false, None);
      idx := idx + 1;
      assert Ids() == ids + [id];
      slot := Some(idx - 1);
    }

    /**
     A run of lookups in a fresh table: the slot of each request, where every slot keeps its id to the end.
     It leaves the list exactly when some lookup does not fit and growth does not replace the list.
     */
    method FindAll(requests: seq<Id>) returns (slots: Option<seq<nat>>)
      requires Valid() && Ids() == []
      modifies this, list
      ensures slots == None <==> !listGrows && exists k :: 0 <= k < |requests| && !Fits(requests, old(list.Length), k)
      ensures slots.Some? ==> Valid() && Ids() == IdsAfter(requests)
      ensures slots.Some? ==> |slots.value| == |requests| && Locates(Ids(), requests, slots.value)
    {
      var found: seq<nat> := [];
      ghost var capacity: nat := list.Length;
      assert requests[..0] == [];
      for k := 0 to |requests|
        invariant Valid() && (list == old(list) || (listGrows && fresh(list)))
        invariant Ids() == IdsAfter(requests[..k]) && |found| == k && Locates(Ids(), requests, found)
        invariant listGrows || forall j :: 0 <= j < k ==> Fits(requests, capacity, j)
      {
        ghost var ids := Ids();
        assert requests[..k + 1][..k] == requests[..k];
        assert Fits(requests, capacity, k) <==> requests[k] in ids || |ids| < capacity;
        var slot := Find(requests[k]);
        assert slot == None <==> !listGrows && !Fits(requests, capacity, k);
        if slot.None? {
          return None;
        }
        LocatesOneMore(ids, requests, found, slot.value);
        found := found + [slot.value];
      }
      assert requests[..|requests|] == requests;
      slots := Some(found);
    }

    /** `fault_register`, `fault_enabled`, `fault_enable` and `fault_disable` on a slot that is in the list. */
    method Register(slot: nat, spec: Spec)
      requires Valid() && slot < idx && list[slot].point == None
      modifies list
      ensures Valid()
      ensures var registered := Some(Registered(spec, old(list[slot].enabled)));
        list[..] == old(list[..])[slot := old(list[slot]).(point := registered)]
    {
      list[slot] := list[slot].(point := Some(Registered(spec, list[slot].enabled)));
      assert Ids() == old(Ids());
    }

    method Signal(slot: nat, e: Event) returns (fired: bool)
      requires Valid() && slot < idx && (e.Check? ==> list[slot].point.Some?)
      modifies list
      ensures Valid()
      ensures list[..] == old(list[..])[slot := SlotStep(old(list[slot]), e)]
      ensures fired <==> e.Check? && Step(old(list[slot]).point.value, e).1
    {
      var s := list[slot];
      fired := false;
      match e {
        case Enable => s := s.(enabled := true);
        case Disable => s := s.(enabled := false);
        case Check =>
          var p := s.point.value;
          p := p.(hitCount := (p.hitCount + 1) % COUNT_LIMIT);
          if s.enabled {
            fired := Triggers(p);
            if p.spec.kind.Once? && fired {
              p := p.(hitOnce := true);
            }
          }
          s := s.(point := Some(p));
      }
      if s.point.Some? {
        s := s.(point := Some(s.point.value.(enabled := s.enabled)));
      }
      list[slot] := s;
      assert Ids() == old(Ids());
    }

    /** `fault_enabled`, `fault_enable` and `fault_disable` by id, where the lookup stays in the list. */
    method Handle(id: Id, e: Event) returns (fired: bool)
      requires Valid() && (id in Ids() || listGrows || idx < list.Length)
      requires e.Check? ==> id in Ids() && forall i :: 0 <= i < idx && list[i].id == id ==> list[i].point.Some?
      modifies this, list
      ensures Valid() && Ids() == Insert(old(Ids()), id)
      ensures forall i :: 0 <= i < old(idx) ==>
        if old(list[i]).id != id then list[i] == old(list[i])
        else list[i] == SlotStep(old(list[i]), e) && (fired <==> e.Check? && Step(old(list[i]).point.value, e).1)
      ensures id !in old(Ids()) ==> list[old(idx)] == SlotStep(Slot(id, false, None), e) && !fired
    {
      ghost var was := list[..idx];
      ghost var ids := Ids();
      assert forall i :: 0 <= i < idx ==> ids[i] == list[i].id;
      var slot := Find(id);
      assert forall i :: 0 <= i < |was| ==> list[i] == list[..|was|][i] == was[i];
      fired := Signal(slot.value, e);
    }
  }

  /** Ids stay distinct, and keep their slots as the table fills. */
  lemma {:induction false} SlotsAreStable(requests: seq<Id>, k: nat)
    requires k <= |requests|
    ensures Distinct(IdsAfter(requests)) && IdsAfter(requests[..k]) <= IdsAfter(requests)
    decreases |requests|
  {
    if requests == [] {
    } else {
      var before := requests[..|requests| - 1];
      if k == |requests| {
        assert requests[..k] == requests;
        SlotsAreStable(before, |before|);
      } else {
        SlotsAreStable(before, k);
        assert before[..k] == requests[..k];
      }
    }
  }

  /** A list that growth does not reach is left behind exactly when it would have to grow. */
  lemma {:induction false} FitsIffNeverGrows(requests: seq<Id>, capacity: nat)
    ensures (forall k :: 0 <= k < |requests| ==> Fits(requests, capacity, k)) <==> |IdsAfter(requests)| <= capacity
    decreases |requests|
  {
    if requests != [] {
      var n := |requests| - 1;
      var before := requests[..n];
      FitsIffNeverGrows(before, capacity);
      forall k | 0 <= k < n ensures Fits(before, capacity, k) == Fits(requests, capacity, k) {
        assert before[..k] == requests[..k];
      }
      assert Fits(requests, capacity, n) <==> requests[n] in IdsAfter(before) || |IdsAfter(before)| < capacity;
    }
  }

  /** The 257th distinct id does not fit into a fresh table. */
  lemma TooManyIds(requests: seq<Id>)
    requires |requests| > 256 && Distinct(requests)
    ensures !Fits(requests, 256, 256)
  {
    DistinctAreKept(requests, INITIAL_SIZE);
    assert requests[..INITIAL_SIZE] == IdsAfter(requests[..INITIAL_SIZE]);
  }

  lemma {:induction false} DistinctAreKept(requests: seq<Id>, k: nat)
    requires k <= |requests| && Distinct(requests)
    ensures IdsAfter(requests[..k]) == requests[..k]
  {
    if k > 0 {
      DistinctAreKept(requests, k - 1);
      assert requests[..k][..k - 1] == requests[..k - 1];
      assert requests[..k] == requests[..k - 1] + [requests[k - 1]];
    }
  }
}
