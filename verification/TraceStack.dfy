/**
 The per-thread stack of traced calls. Every call pushes its context on entry and pops it on exit;
 in between its records name it, the operation the thread works for, and the call around it.
 */
module TraceStack {

  const MAX_DEPTH := 16
  const INVALID_ID := 0
  const UNUSED_MAP := -1

  datatype Ctx = Ctx(mod: nat, opid: nat, fn: nat, mapTag: int)

  const NoCtx := Ctx(0, INVALID_ID, 0, 0)

  datatype Record =
    | Begun(mod: nat, fn: nat, opid: nat)
    | Mapped(mod: nat, fn: nat, mapTag: int, opid: nat, origin: nat, caller: nat)
    | Ended(mod: nat, fn: nat, opid: nat)

  // ----- nested calls and their trace -----

  datatype Call = Call(fn: nat, mapTag: int, inner: seq<Call>)

  function Size(c: Call): (n: nat)
    ensures n > 0
  {
    1 + SizeAll(c.inner)
  }

  function SizeAll(cs: seq<Call>): nat {
    if cs == [] then 0 else Size(cs[0]) + SizeAll(cs[1..])
  }

  /** Stack entries a call needs. */
  function Depth(c: Call): nat {
    1 + DepthAll(c.inner)
  }

  function DepthAll(cs: seq<Call>): nat {
    if cs == [] then 0 else
      var d, e := Depth(cs[0]), DepthAll(cs[1..]);
      if d < e then e else d
  }

  /**
   The records of a call for operation `origin`, called from `caller`. `ids` is what the counter that all
   threads share gives to this call and the calls inside it, in the order in which they draw.
   */
  function TraceOf(c: Call, mod: nat, origin: nat, caller: nat, ids: seq<nat>): seq<Record>
    requires |ids| == Size(c)
  {
    [Begun(mod, c.fn, ids[0]), Mapped(mod, c.fn, c.mapTag, ids[0], origin, caller)]
    + TraceAll(c.inner, mod, origin, ids[0], ids[1..])
    + [Ended(mod, c.fn, ids[0])]
  }

  function TraceAll(cs: seq<Call>, mod: nat, origin: nat, caller: nat, ids: seq<nat>): seq<Record>
    requires |ids| == SizeAll(cs)
  {
    if cs == [] then [] else
      TraceOf(cs[0], mod, origin, caller, ids[..Size(cs[0])]) +
      TraceAll(cs[1..], mod, origin, caller, ids[Size(cs[0])..])
  }

  /** No id is the one that stands for none. */
  predicate Usable(ids: seq<nat>) {
    INVALID_ID !in ids
  }

  // ----- the stack -----

  class CallStack {
    var mod: nat
    var top: int
    const pstack: array<Ctx>
    var log: seq<Record>

    ghost predicate Valid()
      reads this, pstack
    {
      pstack.Length == MAX_DEPTH && -1 <= top < MAX_DEPTH
    }

    ghost function Contents(): seq<Ctx>
      requires Valid()
      reads this, pstack
    {
      pstack[..top + 1]
    }

    /** `perfc_tls_ini` */
    constructor (mod: nat, opid: nat, fn: nat)
      ensures Valid() && fresh(pstack)
      ensures Contents() == [Ctx(mod, opid, fn, UNUSED_MAP)]
      ensures this.mod == mod && log == []
    {
      this.mod, log := mod, [];
      top := -1;
      pstack := new Ctx[MAX_DEPTH](_ => NoCtx);
      new;
      Push(Ctx(mod, opid, fn, UNUSED_MAP));
    }

    method Push(ptc: Ctx)
      requires Valid() && top < MAX_DEPTH - 1
      modifies this`top, pstack
      ensures Valid() && Contents() == old(Contents()) + [ptc.(mod := mod)]
    {
      top := top + 1;
      pstack[top] := ptc.(mod := mod);
    }

    method Pop() returns (ptc: Ctx)
      requires Valid()
      modifies this`top
      ensures Valid()
      ensures if old(Contents()) == [] then ptc.opid == INVALID_ID && Contents() == []
              else old(Contents()) == Contents() + [ptc]
    {
      ptc := NoCtx;
      if top != -1 {
        ptc := pstack[top];
        top := top - 1;
      }
    }

    function Origin(): (c: Ctx)
      requires Valid()
      reads this, pstack
      ensures Contents() != [] ==> c == Contents()[0]
    {
      if top == -1 then NoCtx else pstack[0]
    }

    function Top(): (c: Ctx)
      requires Valid()
      reads this, pstack
      ensures Contents() != [] ==> c == Contents()[|Contents()| - 1]
    {
      if top == -1 then NoCtx else pstack[top]
    }

    function Prev(): (c: Ctx)
      requires Valid()
      reads this, pstack
      ensures |Contents()| > 1 ==> c == Contents()[|Contents()| - 2]
    {
      if top == -1 then NoCtx else if top == 0 then pstack[top] else pstack[top - 1]
    }

    /** `perfc_trace_inii`, where `id` is the id it draws. */
    method Enter(fn: nat, mapTag: int, id: nat)
      requires Valid() && 0 <= top < MAX_DEPTH - 1 && id != INVALID_ID
      requires forall c :: c in Contents() ==> c.opid != INVALID_ID
      modifies this`top, this`log, pstack
      ensures Valid()
      ensures Contents() == old(Contents()) + [Ctx(mod, id, fn, mapTag)]
      ensures log == old(log) + [Begun(mod, fn, id),
                                 Mapped(old(Origin()).mod, fn, mapTag, id, old(Origin()).opid, old(Top()).opid)]
    {
      var ptc := Ctx(mod, id, fn, mapTag);
      Push(ptc);
      var t := Top();
      if t.opid != INVALID_ID {
        log := log + [Begun(t.mod, t.fn, t.opid)];
      }
      var origin, prev := Origin(), Prev();
      assert origin == old(Contents())[0] && origin in old(Contents());
      if origin.opid != INVALID_ID {
        log := log + [Mapped(origin.mod, ptc.fn, ptc.mapTag, ptc.opid, origin.opid, prev.opid)];
      }
    }

    /** `perfc_trace_finii` */
    method Leave() returns (ptc: Ctx)
      requires Valid() && top >= 0 && Top().opid != INVALID_ID
      modifies this`top, this`log
      ensures Valid() && old(Contents()) == Contents() + [ptc]
      ensures log == old(log) + [Ended(ptc.mod, ptc.fn, ptc.opid)]
    {
      var t := Top();
      if t.opid != INVALID_ID {
        log := log + [Ended(t.mod, t.fn, t.opid)];
      }
      ptc := Pop();
    }

    /** The stack belongs to module `m`, works for `origin`, and is inside the call `caller`. */
    ghost predicate Inside(m: nat, origin: nat, caller: nat)
      requires Valid()
      reads this, pstack
    {
      && mod == m && Contents() != []
      && (forall c :: c in Contents() ==> c.mod == m && c.opid != INVALID_ID)
      && Contents()[0].opid == origin && Contents()[|Contents()| - 1].opid == caller
    }

    /** A traced function: its body makes the calls `c.inner`. The stack comes back as it was. */
    method Run(c: Call, ids: seq<nat>, ghost origin: nat, ghost caller: nat)
      requires Valid() && Inside(mod, origin, caller)
      requires |Contents()| + Depth(c) <= MAX_DEPTH && |ids| == Size(c) && Usable(ids)
      modifies this`top, this`log, pstack
      ensures Valid() && Contents() == old(Contents())
      ensures log == old(log) + TraceOf(c, mod, origin, caller, ids)
      decreases c
    {
      Enter(c.fn, c.mapTag, ids[0]);
      ghost var inside := Contents();
      RunAll(c.inner, ids[1..], origin, ids[0]);
      assert Contents() == inside;
      assert Top() == Ctx(mod, ids[0], c.fn, c.mapTag);
      var ptc := Leave();
      assert Contents() == inside[..|inside| - 1] == old(Contents());
      assert log == old(log) + TraceOf(c, mod, origin, caller, ids);
    }

    method RunAll(cs: seq<Call>, ids: seq<nat>, ghost origin: nat, ghost caller: nat)
      requires Valid() && Inside(mod, origin, caller)
      requires |Contents()| + DepthAll(cs) <= MAX_DEPTH && |ids| == SizeAll(cs) && Usable(ids)
      modifies this`top, this`log, pstack
      ensures Valid() && Contents() == old(Contents())
      ensures log == old(log) + TraceAll(cs, mod, origin, caller, ids)
      decreases cs
    {
      if cs != [] {
        Run(cs[0], ids[..Size(cs[0])], origin, caller);
        RunAll(cs[1..], ids[Size(cs[0])..], origin, caller);
      }
    }
  }

  // ----- reading a trace -----

  /**
   Replays a trace against the stack of open calls, without knowing the calls: a beginning opens a
   call, a map record must name the innermost open call, the one around it and the outermost, an end
   must close the innermost. None if a record does not fit.
   */
  datatype Replay = Fits(open: seq<nat>) | Misfit

  function ReplayOne(r: Record, open: seq<nat>): Replay {
    match r
    case Begun(_, _, opid) => Fits(open + [opid])
    case Mapped(_, _, _, opid, origin, caller) =>
      if |open| >= 2 && open[|open| - 1] == opid && open[|open| - 2] == caller && open[0] == origin then Fits(open)
      else Misfit
    case Ended(_, _, opid) => if open != [] && open[|open| - 1] == opid then Fits(open[..|open| - 1]) else Misfit
  }

  function ReplayAll(log: seq<Record>, open: seq<nat>): Replay {
    if log == [] then Fits(open) else
      match ReplayOne(log[0], open)
      case Fits(next) => ReplayAll(log[1..], next)
      case Misfit => Misfit
  }

  lemma {:induction false} ReplayConcat(a: seq<Record>, b: seq<Record>, open: seq<nat>)
    ensures ReplayAll(a + b, open) ==
            match ReplayAll(a, open) case Fits(next) => ReplayAll(b, next) case Misfit => Misfit
    decreases |a|
  {
    if a == [] {
      assert a + b == b;
    } else {
      assert (a + b)[1..] == a[1..] + b;
      if ReplayOne(a[0], open).Fits? {
        ReplayConcat(a[1..], b, ReplayOne(a[0], open).open);
      }
    }
  }

  /** The trace of a call is well nested and names the right origin and caller throughout, whatever ids are drawn. */
  lemma {:induction false} TraceReplays(c: Call, mod: nat, ids: seq<nat>, open: seq<nat>)
    requires open != [] && |ids| == Size(c)
    ensures ReplayAll(TraceOf(c, mod, open[0], open[|open| - 1], ids), open) == Fits(open)
    decreases c
  {
    var id := ids[0];
    var b, e := Begun(mod, c.fn, id), Ended(mod, c.fn, id);
    var m := Mapped(mod, c.fn, c.mapTag, id, open[0], open[|open| - 1]);
    var inner := TraceAll(c.inner, mod, open[0], id, ids[1..]);
    var deeper := open + [id];
    TracesReplay(c.inner, mod, ids[1..], deeper);
    assert deeper[..|deeper| - 1] == open;
    ReplaySingle(b, open);
    ReplaySingle(m, deeper);
    ReplaySingle(e, deeper);
    ReplayConcat([b], [m], open);
    ReplayConcat([b] + [m], inner, open);
    ReplayConcat([b] + [m] + inner, [e], open);
    assert TraceOf(c, mod, open[0], open[|open| - 1], ids) == [b] + [m] + inner + [e];
  }

  lemma ReplaySingle(r: Record, open: seq<nat>)
    ensures ReplayAll([r], open) == ReplayOne(r, open)
  {
    assert [r][1..] == [];
  }

  lemma {:induction false} TracesReplay(cs: seq<Call>, mod: nat, ids: seq<nat>, open: seq<nat>)
    requires open != [] && |ids| == SizeAll(cs)
    ensures ReplayAll(TraceAll(cs, mod, open[0], open[|open| - 1], ids), open) == Fits(open)
    decreases cs
  {
    if cs != [] {
      var first, rest := ids[..Size(cs[0])], ids[Size(cs[0])..];
      TraceReplays(cs[0], mod, first, open);
      TracesReplay(cs[1..], mod, rest, open);
      ReplayConcat(TraceOf(cs[0], mod, open[0], open[|open| - 1], first),
                   TraceAll(cs[1..], mod, open[0], open[|open| - 1], rest), open);
    }
  }

  predicate EndsOrStops(log: seq<Record>) {
    log == [] || log[0].Ended?
  }

  /** The trace of the calls made inside one call determines those calls, at every depth, and the ids they drew. */
  lemma {:induction false} TraceDetermines(cs: seq<Call>, ds: seq<Call>, mod: nat, origin: nat, caller: nat,
                                           ids: seq<nat>, jds: seq<nat>, r: seq<Record>, t: seq<Record>)
    requires |ids| == SizeAll(cs) && |jds| == SizeAll(ds)
    requires TraceAll(cs, mod, origin, caller, ids) + r == TraceAll(ds, mod, origin, caller, jds) + t
    requires EndsOrStops(r) && EndsOrStops(t)
    ensures cs == ds && ids == jds && r == t
    decreases cs
  {
    if cs == [] || ds == [] {
      TraceBegins(cs, mod, origin, caller, ids, r);
      TraceBegins(ds, mod, origin, caller, jds, t);
    } else {
      var c, d := cs[0], ds[0];
      HeadsAgree(cs, ds, mod, origin, caller, ids, jds, r, t);
      var cr := AfterInner(cs, mod, origin, caller, ids, r);
      var dr := AfterInner(ds, mod, origin, caller, jds, t);
      TraceDetermines(c.inner, d.inner, mod, origin, ids[0], ids[1..Size(c)], jds[1..Size(d)], cr, dr);
      assert c == d;
      assert cr[1..] == dr[1..];
      TraceDetermines(cs[1..], ds[1..], mod, origin, caller, ids[Size(c)..], jds[Size(d)..], r, t);
      assert cs == [c] + cs[1..] && ds == [d] + ds[1..];
      IdsSplit(ids, Size(c));
      IdsSplit(jds, Size(d));
    }
  }

  lemma IdsSplit(ids: seq<nat>, n: nat)
    requires 0 < n <= |ids|
    ensures ids == [ids[0]] + ids[1..n] + ids[n..]
  {
  }

  lemma HeadsAgree(cs: seq<Call>, ds: seq<Call>, mod: nat, origin: nat, caller: nat, ids: seq<nat>, jds: seq<nat>,
                   r: seq<Record>, t: seq<Record>)
    requires cs != [] && ds != [] && |ids| == SizeAll(cs) && |jds| == SizeAll(ds)
    requires TraceAll(cs, mod, origin, caller, ids) + r == TraceAll(ds, mod, origin, caller, jds) + t
    ensures cs[0].fn == ds[0].fn && cs[0].mapTag == ds[0].mapTag && ids[0] == jds[0]
    ensures TraceAll(cs[0].inner, mod, origin, ids[0], ids[1..Size(cs[0])]) +
            AfterInner(cs, mod, origin, caller, ids, r) ==
            TraceAll(ds[0].inner, mod, origin, jds[0], jds[1..Size(ds[0])]) +
            AfterInner(ds, mod, origin, caller, jds, t)
  {
    TraceSplit(cs, mod, origin, caller, ids, r);
    TraceSplit(ds, mod, origin, caller, jds, t);
  }

  lemma TraceBegins(cs: seq<Call>, mod: nat, origin: nat, caller: nat, ids: seq<nat>, r: seq<Record>)
    requires |ids| == SizeAll(cs)
    ensures cs == [] ==> TraceAll(cs, mod, origin, caller, ids) + r == r
    ensures cs != [] ==> var log := TraceAll(cs, mod, origin, caller, ids) + r; log != [] && log[0].Begun?
  {
  }

  /** What follows the inner calls of the first call. */
  function AfterInner(cs: seq<Call>, mod: nat, origin: nat, caller: nat, ids: seq<nat>, r: seq<Record>):
    (a: seq<Record>)
    requires cs != [] && |ids| == SizeAll(cs)
    ensures a != [] && a[1..] == TraceAll(cs[1..], mod, origin, caller, ids[Size(cs[0])..]) + r
  {
    [Ended(mod, cs[0].fn, ids[0])] + (TraceAll(cs[1..], mod, origin, caller, ids[Size(cs[0])..]) + r)
  }

  lemma TraceSplit(cs: seq<Call>, mod: nat, origin: nat, caller: nat, ids: seq<nat>, r: seq<Record>)
    requires cs != [] && |ids| == SizeAll(cs)
    ensures var log := TraceAll(cs, mod, origin, caller, ids) + r;
      && |log| >= 2
      && log[0] == Begun(mod, cs[0].fn, ids[0])
      && log[1] == Mapped(mod, cs[0].fn, cs[0].mapTag, ids[0], origin, caller)
      && log[2..] == TraceAll(cs[0].inner, mod, origin, ids[0], ids[1..Size(cs[0])]) +
                     AfterInner(cs, mod, origin, caller, ids, r)
  {
    var head := Head(cs[0], mod, origin, caller, ids[0]);
    var inner := TraceAll(cs[0].inner, mod, origin, ids[0], ids[1..Size(cs[0])]);
    var end, rest := [Ended(mod, cs[0].fn, ids[0])], TraceAll(cs[1..], mod, origin, caller, ids[Size(cs[0])..]);
    TraceUnfolds(cs, mod, origin, caller, ids);
    SplitJoined(head, inner, end, rest, r);
    var log := head + inner + end + rest + r;
    assert log[0] == log[..2][0] && log[1] == log[..2][1];
  }

  function Head(c: Call, mod: nat, origin: nat, caller: nat, id: nat): (head: seq<Record>)
    ensures |head| == 2
  {
    [Begun(mod, c.fn, id), Mapped(mod, c.fn, c.mapTag, id, origin, caller)]
  }

  lemma TraceUnfolds(cs: seq<Call>, mod: nat, origin: nat, caller: nat, ids: seq<nat>)
    requires cs != [] && |ids| == SizeAll(cs)
    ensures TraceAll(cs, mod, origin, caller, ids) ==
            Head(cs[0], mod, origin, caller, ids[0]) + TraceAll(cs[0].inner, mod, origin, ids[0], ids[1..Size(cs[0])]) +
            [Ended(mod, cs[0].fn, ids[0])] + TraceAll(cs[1..], mod, origin, caller, ids[Size(cs[0])..])
  {
    var first := ids[..Size(cs[0])];
    assert first[1..] == ids[1..Size(cs[0])] && first[0] == ids[0];
  }

  lemma SplitJoined(head: seq<Record>, inner: seq<Record>, end: seq<Record>, rest: seq<Record>, r: seq<Record>)
    ensures var log := head + inner + end + rest + r;
      log[..|head|] == head && log[|head|..] == inner + (end + (rest + r))
  {
  }
}
