/**
 Reading, writing and deleting by key string. The recursions peel one component off the key, as the
 program does; each is specified by a function on the list of all components, and for keys that
 `get_keys` can print those functions are the path operations of `Tree`.
 */
module Access {
  import opened Wrappers
  import opened Text
  import opened Tree
  import opened Keys

  type Entries = map<string, Value>

  /** `InvalidKey` is the payload's own EINVAL; the others are what Python itself raises. */
  datatype Fault = InvalidKey | AttributeFault | KeyFault | TypeFault

  /** Python has no `len` of these values. */
  predicate Unsized(v: Value) {
    v.Int? || v.Float? || v.Null?
  }

  // ----- reading -----

  /** What `_get` returns; `Null` is Python's None. */
  function GetC(d: Entries, p: seq<Comp>): Result<Value, Fault>
    requires p != []
    decreases |p|
  {
    var c := p[0];
    if IsBlank(c.name) || c.tail != "" then Err(InvalidKey)
    else if |p| == 1 then
      if c.name !in d then Ok(Null)
      else if c.index.None? then Ok(d[c.name])
      else if Unsized(d[c.name]) then Err(TypeFault)
      else if d[c.name].List? && c.index.value < |d[c.name].l| then Ok(d[c.name].l[c.index.value])
      else Ok(Null)
    else if c.index.None? then
      if c.name in d && d[c.name].Dict? then GetC(d[c.name].m, p[1..]) else Ok(Null)
    else if c.name !in d then Err(KeyFault)
    else if d[c.name].List? && c.index.value < |d[c.name].l| && d[c.name].l[c.index.value].Dict? then
      GetC(d[c.name].l[c.index.value].m, p[1..])
    else Ok(Null)
  }

  function GetKey(key: string, data: Entries): Result<Value, Fault> {
    GetC(data, Comps(key))
  }

  // ----- writing -----

  /** The dict after `_set`, also when it raises half-way. */
  function SetC(d: Entries, p: seq<Comp>, x: Value): (Entries, Option<Fault>)
    requires p != []
    decreases |p|, 0
  {
    var c := p[0];
    var before := if c.name in d then d[c.name] else Dict(map[]);
    match c.index
    case None =>
      var r := SetBelow(before, p[1..], x);
      (d[c.name := r.0], r.1)
    case Some(i) =>
      if UnusableIndex(c) then (d, Some(InvalidKey)) else
        var r := SetBelow(Child(before, Idx(i)), p[1..], x);
        (d[c.name := Attach(before, Idx(i), r.0)], r.1)
  }

  /** The rest of a key applied to the value it leads to: with nothing left that value is replaced;
      otherwise a string or a list gives way to a dict, and any other scalar fails, after the next
      component has been checked. */
  function SetBelow(v: Value, p: seq<Comp>, x: Value): (Value, Option<Fault>)
    decreases |p|, 1
  {
    if p == [] then (x, None)
    else match v
      case Dict(m) => var r := SetC(m, p, x); (Dict(r.0), r.1)
      case Str(_) => var r := SetC(map[], p, x); (Dict(r.0), r.1)
      case List(_) => var r := SetC(map[], p, x); (Dict(r.0), r.1)
      case _ => (v, Some(if UnusableIndex(p[0]) then InvalidKey else AttributeFault))
  }

  /** An index after a blank name. */
  predicate UnusableIndex(c: Comp) {
    c.index.Some? && IsBlank(c.name)
  }

  method SetRec(key: string, val: Value, data: Entries) returns (d: Entries, err: Option<Fault>)
    ensures (d, err) == SetC(data, Comps(key), val)
    decreases |key|, 3
  {
    var (first, rest) := Cut(key);
    d, err := SetFirst(CompOf(first), rest, val, data);
  }

  lemma SetCons(d: Entries, c: Comp, p: seq<Comp>, x: Value)
    ensures var before := if c.name in d then d[c.name] else Dict(map[]);
      SetC(d, [c] + p, x) ==
        if UnusableIndex(c) then (d, Some(InvalidKey))
        else if c.index.None? then var r := SetBelow(before, p, x); (d[c.name := r.0], r.1)
        else
          var a := Idx(c.index.value);
          var r := SetBelow(Child(before, a), p, x);
          (d[c.name := Attach(before, a, r.0)], r.1)
  {
    assert ([c] + p)[1..] == p;
  }

  method SetFirst(c: Comp, rest: Option<string>, val: Value, data: Entries) returns (d: Entries, err: Option<Fault>)
    ensures (d, err) == SetC(data, [c] + RestComps(rest), val)
    decreases if rest.None? then 0 else |rest.value| + 1, 2
  {
    SetCons(data, c, RestComps(rest), val);
    d, err := data, None;
    if UnusableIndex(c) {
      return d, Some(InvalidKey);
    }
    if c.name !in d {
      d := d[c.name := Dict(map[])];
    }
    var slot := d[c.name];
    if c.index.Some? {
      slot, err := SetSlot(c.index.value, rest, val, slot);
    } else {
      slot, err := SetBelowRec(rest, val, slot);
    }
    d := d[c.name := slot];
    SetTwice(data, c.name, Dict(map[]), slot);
  }

  lemma SetTwice(d: Entries, n: string, x: Value, y: Value)
    ensures d[n := x][n := y] == d[n := y]
  {
  }

  /** A value that is not a list gives way to one, which is padded up to the slot. */
  method SetSlot(i: nat, rest: Option<string>, val: Value, v: Value) returns (r: Value, err: Option<Fault>)
    ensures var sub := SetBelow(Child(v, Idx(i)), RestComps(rest), val);
      (r, err) == (Attach(v, Idx(i), sub.0), sub.1)
    decreases if rest.None? then 0 else |rest.value| + 1, 1
  {
    var l := PadTo(if v.List? then v.l else [], i + 1);
    assert l[i] == Child(v, Idx(i));
    var sub;
    sub, err := SetBelowRec(rest, val, l[i]);
    r := List(l[i := sub]);
  }

  method SetBelowRec(rest: Option<string>, val: Value, v: Value) returns (r: Value, err: Option<Fault>)
    ensures (r, err) == SetBelow(v, RestComps(rest), val)
    decreases if rest.None? then 0 else |rest.value| + 1, 0
  {
    if rest.None? {
      return val, None;
    }
    r := v;
    if v.Str? || v.List? {
      r := Dict(map[]);
    }
    if r.Dict? {
      var sub;
      sub, err := SetRec(rest.value, val, r.m);
      r := Dict(sub);
    } else {
      var next := CompOf(Cut(rest.value).0);
      err := Some(if UnusableIndex(next) then InvalidKey else AttributeFault);
    }
  }

  method PadTo(l: seq<Value>, n: nat) returns (r: seq<Value>)
    ensures r == Pad(l, n)
  {
    r := l;
    for k := |l| to if n < |l| then |l| else n
      invariant |r| == if |l| < k then k else |l|
      invariant forall j :: 0 <= j < |r| ==> r[j] == if j < |l| then l[j] else Blank
    {
      r := r + [Blank];
    }
  }

  // ----- deleting -----

  /** The value after `_delete`, with the flag it returns or the error it raises. */
  function DeleteC(v: Value, p: seq<Comp>, force: bool): (Value, Result<bool, Fault>)
    requires p != []
    decreases |p|
  {
    var c := p[0];
    if !v.Dict? then (v, Err(AttributeFault))
    else if c.name !in v.m then (v, Ok(false))
    else
      var w := v.m[c.name];
      match c.index
      case Some(i) =>
        if !w.List? then (v, Err(InvalidKey))
        else if i >= |w.l| then (v, Ok(false))
        else if |p| == 1 then (Dict(v.m[c.name := Detach(w, Idx(i))]), Ok(true))
        else
          var r := DeleteC(w.l[i], p[1..], force);
          (Dict(v.m[c.name := List(w.l[i := r.0])]), r.1)
      case None =>
        if |p| > 1 then
          var r := DeleteC(w, p[1..], force);
          (Dict(v.m[c.name := r.0]), r.1)
        else if !Occupied(w) || force then (Dict(v.m - {c.name}), Ok(true))
        else (v, Err(InvalidKey))
  }

  /** A container that still holds something. */
  predicate Occupied(v: Value) {
    (v.Dict? && v.m != map[]) || (v.List? && v.l != [])
  }

  method DeleteRec(key: string, data: Value, force: bool) returns (d: Value, r: Result<bool, Fault>)
    ensures (d, r) == DeleteC(data, Comps(key), force)
    decreases |key|
  {
    d := data;
    var (first, rest) := Cut(key);
    var c := CompOf(first);
    assert Comps(key) == [c] + RestComps(rest);
    if !data.Dict? {
      return d, Err(AttributeFault);
    }
    if c.name !in data.m {
      return d, Ok(false);
    }
    var w := data.m[c.name];
    if c.index.Some? {
      var index := c.index.value;
      if !w.List? {
        return d, Err(InvalidKey);
      }
      if index >= |w.l| {
        return d, Ok(false);
      }
      match rest
      case None =>
        if index == |w.l| - 1 {
          d := Dict(data.m[c.name := List(w.l[..index])]);
        } else {
          d := Dict(data.m[c.name := List(w.l[index := Blank])]);
        }
        r := Ok(true);
      case Some(k) =>
        var sub;
        sub, r := DeleteRec(k, w.l[index], force);
        d := Dict(data.m[c.name := List(w.l[index := sub])]);
    } else {
      match rest
      case None =>
        var isLeaf := !(w.List? || w.Dict?);
        if isLeaf || force || (if w.List? then |w.l| else |w.m|) == 0 {
          d := Dict(data.m - {c.name});
          r := Ok(true);
        } else {
          r := Err(InvalidKey);
        }
      case Some(k) =>
        var sub;
        sub, r := DeleteRec(k, w, force);
        d := Dict(data.m[c.name := sub]);
    }
  }

  // ----- components and paths -----

  lemma StepsFold(p: seq<Comp>, v: Value)
    requires p != []
    ensures At(v, StepsOf(p)) ==
            if !Has(v, Name(p[0].name)) then None
            else var w := Child(v, Name(p[0].name));
              if p[0].index.None? then At(w, StepsOf(p[1..]))
              else if Has(w, Idx(p[0].index.value)) then At(Child(w, Idx(p[0].index.value)), StepsOf(p[1..]))
              else None
  {
    var s := StepsOf(p);
    if p[0].index.Some? {
      assert s[1..] == [Idx(p[0].index.value)] + StepsOf(p[1..]);
      assert s[1..][1..] == StepsOf(p[1..]);
    } else {
      assert s[1..] == StepsOf(p[1..]);
    }
  }

  lemma NamesFirst(p: seq<Comp>)
    requires p != []
    ensures StepsOf(p) != [] && StepsOf(p)[0] == Name(p[0].name)
  {
  }

  /** A key that `_get` does not reject. */
  predicate Gettable(p: seq<Comp>) {
    p != [] && forall k :: 0 <= k < |p| ==> !IsBlank(p[k].name) && p[k].tail == ""
  }

  /** Reading a key yields the node at its path, and never a value when there is none. */
  lemma {:induction false} GetIsAt(d: Entries, p: seq<Comp>)
    requires Gettable(p)
    ensures match At(Dict(d), StepsOf(p))
            case Some(v) => GetC(d, p) == Ok(v)
            case None => GetC(d, p) == Ok(Null) || GetC(d, p).Err?
    decreases |p|
  {
    StepsFold(p, Dict(d));
    if |p| == 1 {
      assert StepsOf(p[1..]) == [];
    } else {
      NamesFirst(p[1..]);
      if p[0].name in d {
        var w := d[p[0].name];
        if p[0].index.None? {
          if w.Dict? {
            GetIsAt(w.m, p[1..]);
          }
        } else if w.List? && p[0].index.value < |w.l| && w.l[p[0].index.value].Dict? {
          GetIsAt(w.l[p[0].index.value].m, p[1..]);
        }
      }
    }
  }

  // ----- what reading and deleting raise -----

  /** The node that the first `j` components lead to. */
  function Before(v: Value, p: seq<Comp>, j: nat): Option<Value>
    requires j <= |p|
  {
    At(v, StepsOf(p[..j]))
  }

  /** The node that one component leads to. */
  function Into(v: Value, c: Comp): Option<Value> {
    if !Has(v, Name(c.name)) then None
    else if c.index.None? then Some(Child(v, Name(c.name)))
    else if Has(Child(v, Name(c.name)), Idx(c.index.value)) then
      Some(Child(Child(v, Name(c.name)), Idx(c.index.value)))
    else None
  }

  lemma BeforeStep(v: Value, p: seq<Comp>, j: nat)
    requires 0 < j <= |p|
    ensures Before(v, p, j) == if Into(v, p[0]).None? then None else Before(Into(v, p[0]).value, p[1..], j - 1)
  {
    StepsFold(p[..j], v);
    assert p[..j][1..] == p[1..][..j - 1];
  }

  lemma BeforeNothing(v: Value, p: seq<Comp>)
    ensures Before(v, p, 0) == Some(v)
  {
    assert p[..0] == [];
  }

  predicate LeadsToDict(v: Value, p: seq<Comp>, j: nat)
    requires j <= |p|
  {
    Before(v, p, j).Some? && Before(v, p, j).value.Dict?
  }

  /** A component that `_get` does not reject. */
  predicate Usable(c: Comp) {
    !IsBlank(c.name) && c.tail == ""
  }

  /** What `_get` raises in the dict `m` for the component `c`. */
  predicate GetRaises(m: Entries, c: Comp, last: bool, e: Fault) {
    match e
    case InvalidKey => !Usable(c)
    case KeyFault => Usable(c) && !last && c.index.Some? && c.name !in m
    case TypeFault =>
      Usable(c) && last && c.index.Some? && c.name in m && (m[c.name].Int? || m[c.name].Float? || m[c.name].Null?)
    case AttributeFault => false
  }

  /** Usable components lead to a dict in which component `j` raises `e`. */
  predicate GetRaisesAt(v: Value, p: seq<Comp>, j: nat, e: Fault) {
    && j < |p| && (forall i :: 0 <= i < j ==> Usable(p[i])) && LeadsToDict(v, p, j)
    && GetRaises(Before(v, p, j).value.m, p[j], j == |p| - 1, e)
  }

  lemma GetRaisesLater(v: Value, p: seq<Comp>, j: nat, e: Fault)
    requires 0 < j < |p|
    ensures GetRaisesAt(v, p, j, e) <==>
            Usable(p[0]) && Into(v, p[0]).Some? && GetRaisesAt(Into(v, p[0]).value, p[1..], j - 1, e)
  {
    BeforeStep(v, p, j);
    assert p[1..][j - 1] == p[j];
    assert forall i :: 0 <= i < j - 1 ==> p[1..][i] == p[i + 1];
    assert forall i :: 0 < i < j ==> p[i] == p[1..][i - 1];
  }

  /** Nothing is below a value that is not a dict. */
  lemma LeadsNowhere(v: Value, p: seq<Comp>, j: nat)
    requires !v.Dict? && j <= |p|
    ensures !LeadsToDict(v, p, j)
  {
    if j == 0 {
      BeforeNothing(v, p);
    } else {
      BeforeStep(v, p, j);
    }
  }

  /**
   Reading any key raises exactly what its first rejected component raises, if the components before it lead there.
   Otherwise the answer is the node at the key's path, or None if there is none or the key is not usable.
   */
  lemma {:induction false} GetExactly(d: Entries, p: seq<Comp>, e: Fault)
    requires p != []
    ensures GetC(d, p) == Err(e) <==> exists j: nat :: GetRaisesAt(Dict(d), p, j, e)
    ensures GetC(d, p).Ok? ==>
      GetC(d, p).value ==
      if Gettable(p) && At(Dict(d), StepsOf(p)).Some? then At(Dict(d), StepsOf(p)).value else Null
    decreases |p|
  {
    var v, c := Dict(d), p[0];
    BeforeNothing(v, p);
    assert GetRaisesAt(v, p, 0, e) <==> GetRaises(d, c, |p| == 1, e);
    forall j: nat | 0 < j < |p| ensures GetRaisesAt(v, p, j, e) <==>
      Usable(c) && Into(v, c).Some? && GetRaisesAt(Into(v, c).value, p[1..], j - 1, e)
    {
      GetRaisesLater(v, p, j, e);
    }
    StepsFold(p, v);
    if |p| == 1 {
      assert StepsOf(p[1..]) == [];
    } else {
      GetLater(v, p, e);
      if Usable(c) && Into(v, c).Some? && Into(v, c).value.Dict? {
        GetExactly(Into(v, c).value.m, p[1..], e);
        GettableTail(p);
      } else if Usable(c) && Into(v, c).Some? {
        LeadsNowhereElse(Into(v, c).value, p[1..], e);
      }
    }
  }

  lemma GettableTail(p: seq<Comp>)
    requires |p| > 1
    ensures Gettable(p) <==> Usable(p[0]) && Gettable(p[1..])
  {
    assert forall k :: 0 <= k < |p| - 1 ==> p[1..][k] == p[k + 1];
    assert forall k :: 0 < k < |p| ==> p[k] == p[1..][k - 1];
  }

  /** A key of several components raises at its first or later. */
  lemma GetLater(v: Value, p: seq<Comp>, e: Fault)
    requires |p| > 1
    ensures (exists j: nat :: GetRaisesAt(v, p, j, e)) <==>
            GetRaisesAt(v, p, 0, e) ||
            (Usable(p[0]) && Into(v, p[0]).Some? && exists j: nat :: GetRaisesAt(Into(v, p[0]).value, p[1..], j, e))
  {
    if j: nat :| GetRaisesAt(v, p, j, e) {
      if j > 0 {
        GetRaisesLater(v, p, j, e);
      }
    }
    if Usable(p[0]) && Into(v, p[0]).Some? {
      if j: nat :| GetRaisesAt(Into(v, p[0]).value, p[1..], j, e) {
        GetRaisesLater(v, p, j + 1, e);
        assert GetRaisesAt(v, p, j + 1, e);
      }
    }
  }

  lemma LeadsNowhereElse(v: Value, p: seq<Comp>, e: Fault)
    requires !v.Dict? && p != []
    ensures !exists j: nat :: GetRaisesAt(v, p, j, e)
    ensures At(v, StepsOf(p)).None?
  {
    forall j: nat | j < |p| ensures !GetRaisesAt(v, p, j, e) {
      LeadsNowhere(v, p, j);
    }
    StepsFold(p, v);
  }

  /** What `_delete` raises when the components before `j` lead to `v`. */
  predicate DeleteRaises(v: Value, c: Comp, e: Fault) {
    match e
    case AttributeFault => !v.Dict?
    case InvalidKey => v.Dict? && c.index.Some? && c.name in v.m && !v.m[c.name].List?
    case _ => false
  }

  predicate DeleteRaisesAt(v: Value, p: seq<Comp>, j: nat, e: Fault) {
    j < |p| && Before(v, p, j).Some? && DeleteRaises(Before(v, p, j).value, p[j], e)
  }

  lemma DeleteLater(v: Value, p: seq<Comp>, e: Fault)
    requires |p| > 1
    ensures (exists j: nat :: DeleteRaisesAt(v, p, j, e)) <==>
            DeleteRaises(v, p[0], e) ||
            (Into(v, p[0]).Some? && exists j: nat :: DeleteRaisesAt(Into(v, p[0]).value, p[1..], j, e))
  {
    BeforeNothing(v, p);
    if j: nat :| DeleteRaisesAt(v, p, j, e) {
      if j > 0 {
        BeforeStep(v, p, j);
        assert DeleteRaisesAt(Into(v, p[0]).value, p[1..], j - 1, e);
      }
    }
    if DeleteRaises(v, p[0], e) {
      assert DeleteRaisesAt(v, p, 0, e);
    }
    if Into(v, p[0]).Some? {
      if j: nat :| DeleteRaisesAt(Into(v, p[0]).value, p[1..], j, e) {
        BeforeStep(v, p, j + 1);
        assert DeleteRaisesAt(v, p, j + 1, e);
      }
    }
  }

  /**
   Where nothing is at a key's path, deleting raises exactly if the key leads to a value that is not a dict, or to
   a name whose value is indexed but not a list; otherwise the answer is False.
   */
  lemma {:induction false} DeleteAbsent(v: Value, p: seq<Comp>, force: bool, e: Fault)
    requires p != [] && At(v, StepsOf(p)).None?
    ensures DeleteC(v, p, force).0 == v
    ensures DeleteC(v, p, force).1 == Err(e) <==> exists j: nat :: DeleteRaisesAt(v, p, j, e)
    ensures DeleteC(v, p, force).1.Ok? ==> DeleteC(v, p, force).1 == Ok(false)
    decreases |p|
  {
    DeleteIsRemove(v, p, force);
    StepsFold(p, v);
    BeforeNothing(v, p);
    if |p| == 1 {
      assert StepsOf(p[1..]) == [];
      assert DeleteRaisesAt(v, p, 0, e) <==> DeleteRaises(v, p[0], e);
    } else {
      DeleteLater(v, p, e);
      if Into(v, p[0]).Some? {
        DeleteAbsent(Into(v, p[0]).value, p[1..], force, e);
      }
    }
  }

  /** A key for which `_set` raises no EINVAL of its own. */
  predicate Settable(p: seq<Comp>) {
    forall k :: 0 <= k < |p| ==> !UnusableIndex(p[k])
  }

  /** Setting a key to the value it reads changes nothing. */
  lemma SetWhatIsRead(d: Entries, key: string)
    requires GetKey(key, d).Ok? && GetKey(key, d).value != Null
    ensures SetC(d, Comps(key), GetKey(key, d).value) == (d, None)
  {
    var p := Comps(key);
    ReadIsGettable(d, p);
    GetIsAt(d, p);
    PutSame(Dict(d), StepsOf(p));
    SetIsPut(d, p, GetC(d, p).value);
  }

  lemma {:induction false} ReadIsGettable(d: Entries, p: seq<Comp>)
    requires p != [] && GetC(d, p).Ok? && GetC(d, p).value != Null
    ensures Gettable(p)
    decreases |p|
  {
    if |p| > 1 {
      if p[0].index.None? {
        ReadIsGettable(d[p[0].name].m, p[1..]);
      } else {
        ReadIsGettable(d[p[0].name].l[p[0].index.value].m, p[1..]);
      }
      assert forall k :: 0 < k < |p| ==> p[k] == p[1..][k - 1];
    }
  }

  lemma StepsTail(p: seq<Comp>)
    requires p != []
    ensures StepsOf(p)[1..] == (if p[0].index.None? then [] else [Idx(p[0].index.value)]) + StepsOf(p[1..])
    ensures p[0].index.Some? ==> StepsOf(p)[1..][1..] == StepsOf(p[1..])
  {
    var idx := if p[0].index.None? then [] else [Idx(p[0].index.value)];
    assert StepsOf(p) == [Name(p[0].name)] + (idx + StepsOf(p[1..]));
    assert idx != [] ==> (idx + StepsOf(p[1..]))[1..] == StepsOf(p[1..]);
  }

  /** Writing either puts the value at the key's path, or meets a scalar on the way and changes nothing. */
  lemma {:induction false} SetIsPut(d: Entries, p: seq<Comp>, x: Value)
    requires p != [] && Settable(p)
    ensures SetC(d, p, x) ==
            if Blocked(Dict(d), StepsOf(p)) then (d, Some(AttributeFault))
            else (Put(Dict(d), StepsOf(p), x).m, None)
    decreases |p|, 0
  {
    var c, rest := p[0], StepsOf(p[1..]);
    var w := Child(Dict(d), Name(c.name));
    match c.index
    case None =>
      assert StepsOf(p) == [Name(c.name)] + rest;
      PutCons(Dict(d), Name(c.name), rest, x);
      if c.name in d {
        SetBelowIsPut(w, p[1..], x);
        assert d[c.name := w] == d;
      } else {
        SetBelowIsPut(Dict(map[]), p[1..], x);
        BlankNotBlocked(rest);
        if |p| > 1 {
          FreshDict(p[1..], x);
        }
      }
    case Some(i) =>
      SetBelowIsPut(Child(w, Idx(i)), p[1..], x);
      SetSlotIsPut(d, p, x);
  }

  lemma SetSlotIsPut(d: Entries, p: seq<Comp>, x: Value)
    requires p != [] && Settable(p) && p[0].index.Some?
    requires var v := Child(Child(Dict(d), Name(p[0].name)), Idx(p[0].index.value));
             SetBelow(v, p[1..], x) == if Blocked(v, StepsOf(p[1..])) then (v, Some(AttributeFault))
                                       else (Put(v, StepsOf(p[1..]), x), None)
    ensures SetC(d, p, x) ==
            if Blocked(Dict(d), StepsOf(p)) then (d, Some(AttributeFault))
            else (Put(Dict(d), StepsOf(p), x).m, None)
  {
    var n, i, rest := p[0].name, p[0].index.value, StepsOf(p[1..]);
    var w := Child(Dict(d), Name(n));
    var v := Child(w, Idx(i));
    var r := SetBelow(v, p[1..], x);
    assert SetC(d, p, x) == (d[n := Attach(w, Idx(i), r.0)], r.1);
    StepsOfSlot(p);
    PutCons(Dict(d), Name(n), [Idx(i)] + rest, x);
    PutCons(w, Idx(i), rest, x);
    if Blocked(v, rest) {
      BlankNotBlocked(rest);
      assert Has(w, Idx(i));
      AttachSame(w, Idx(i));
      AttachSame(Dict(d), Name(n));
    }
  }

  lemma StepsOfSlot(p: seq<Comp>)
    requires p != [] && p[0].index.Some?
    ensures StepsOf(p) == [Name(p[0].name)] + ([Idx(p[0].index.value)] + StepsOf(p[1..]))
  {
    ConcatAssociates([Name(p[0].name)], [Idx(p[0].index.value)], StepsOf(p[1..]));
  }

  lemma {:induction false} SetBelowIsPut(v: Value, p: seq<Comp>, x: Value)
    requires Settable(p)
    ensures SetBelow(v, p, x) ==
            if Blocked(v, StepsOf(p)) then (v, Some(AttributeFault)) else (Put(v, StepsOf(p), x), None)
    decreases |p|, 1
  {
    if p == [] {
    } else {
      NamesFirst(p);
      if v.Dict? {
        SetIsPut(v.m, p, x);
      } else if v.Str? || v.List? {
        SetIsPut(map[], p, x);
        FreshDict(p, x);
      }
    }
  }

  /** A string or a list is as good as an empty dict under a name. */
  lemma FreshDict(p: seq<Comp>, x: Value)
    requires p != []
    ensures !Blocked(Dict(map[]), StepsOf(p))
    ensures forall v: Value :: v.Str? || v.List? ==>
              !Blocked(v, StepsOf(p)) && Put(v, StepsOf(p), x) == Put(Dict(map[]), StepsOf(p), x)
  {
    NamesFirst(p);
    BlankNotBlocked(StepsOf(p)[1..]);
  }

  // ----- setting a key with an index after a blank name -----

  /** A string or a list gives way to a dict, and so does nothing. */
  function MadeWay(v: Option<Value>): Value {
    match v
    case Some(Str(_)) => Dict(map[])
    case Some(List(_)) => Dict(map[])
    case Some(w) => w
    case None => Dict(map[])
  }

  /** `r`, but with the EINVAL of a later component where it would have succeeded. */
  function Rejected<T>(r: (T, Option<Fault>)): (T, Option<Fault>) {
    (r.0, if r.1.None? then Some(InvalidKey) else r.1)
  }

  lemma {:induction false} SetBelowStops(v: Value, p: seq<Comp>, q: seq<Comp>, x: Value)
    requires Settable(p) && q != [] && UnusableIndex(q[0])
    ensures SetBelow(v, p + q, x) == Rejected(SetBelow(v, p, MadeWay(At(v, StepsOf(p)))))
    decreases |p|, 1
  {
    if p == [] {
      assert p + q == q;
    } else {
      NamesFirst(p);
      if v.Dict? {
        SetStops(v.m, p, q, x);
      } else if v.Str? || v.List? {
        SetStops(map[], p, q, x);
      }
    }
  }

  /** What a component finds: a fresh dict if its name is missing, a blank slot if its index is. */
  function Met(d: Entries, c: Comp): Value {
    var before := if c.name in d then d[c.name] else Dict(map[]);
    if c.index.None? then before else Child(before, Idx(c.index.value))
  }

  lemma StopsBelow(d: Entries, c: Comp, p: seq<Comp>, x: Value, q: seq<Comp>, y: Value)
    requires !UnusableIndex(c)
    requires SetBelow(Met(d, c), p, x) == Rejected(SetBelow(Met(d, c), q, y))
    ensures SetC(d, [c] + p, x) == Rejected(SetC(d, [c] + q, y))
  {
    SetCons(d, c, p, x);
    SetCons(d, c, q, y);
  }

  lemma WayBelow(d: Entries, p: seq<Comp>)
    requires p != []
    ensures MadeWay(At(Dict(d), StepsOf(p))) == MadeWay(At(Met(d, p[0]), StepsOf(p[1..])))
  {
    StepsFold(p, Dict(d));
    if |p| > 1 {
      NamesFirst(p[1..]);
    }
  }

  lemma {:induction false} SetStops(d: Entries, p: seq<Comp>, q: seq<Comp>, x: Value)
    requires p != [] && Settable(p) && q != [] && UnusableIndex(q[0])
    ensures SetC(d, p + q, x) == Rejected(SetC(d, p, MadeWay(At(Dict(d), StepsOf(p)))))
    decreases |p|, 0
  {
    var c, rest := p[0], p[1..];
    HeadOf(p, q);
    WayBelow(d, p);
    SetBelowStops(Met(d, c), rest, q, x);
    StopsBelow(d, c, rest + q, x, rest, MadeWay(At(Dict(d), StepsOf(p))));
  }

  lemma HeadOf(p: seq<Comp>, q: seq<Comp>)
    requires p != []
    ensures p == [p[0]] + p[1..] && p + q == [p[0]] + (p[1..] + q)
    ensures Settable(p) ==> !UnusableIndex(p[0]) && Settable(p[1..])
  {
  }

  /**
   A key with an unusable index sets nothing, but the components before it make their containers all the same, unless
   a scalar on the way raises first.
   */
  lemma SetRejects(d: Entries, p: seq<Comp>, k: nat, x: Value)
    requires k < |p| && UnusableIndex(p[k]) && forall j :: 0 <= j < k ==> !UnusableIndex(p[j])
    ensures var s := StepsOf(p[..k]);
      SetC(d, p, x) ==
      if k == 0 then (d, Some(InvalidKey))
      else if Blocked(Dict(d), s) then (d, Some(AttributeFault))
      else (Put(Dict(d), s, MadeWay(At(Dict(d), s))).m, Some(InvalidKey))
  {
    var front := p[..k];
    if k > 0 {
      assert p == front + p[k..];
      SetStops(d, front, p[k..], x);
      SetIsPut(d, front, MadeWay(At(Dict(d), StepsOf(front))));
    }
  }

  // ----- deleting a key -----

  /** `_delete` refuses an unindexed key whose value still holds something, unless forced. */
  predicate Deletable(v: Value, p: seq<Comp>, force: bool)
    requires p != [] && At(v, StepsOf(p)).Some?
  {
    force || p[|p| - 1].index.Some? || !Occupied(At(v, StepsOf(p)).value)
  }

  /** A deletion either removes the node at the key's path, or changes nothing. */
  lemma {:induction false} DeleteIsRemove(v: Value, p: seq<Comp>, force: bool)
    requires p != []
    ensures StepsOf(p) != []
    ensures match At(v, StepsOf(p))
            case Some(_) =>
              DeleteC(v, p, force) ==
              if Deletable(v, p, force) then (Remove(v, StepsOf(p)), Ok(true)) else (v, Err(InvalidKey))
            case None => DeleteC(v, p, force).0 == v && DeleteC(v, p, force).1 != Ok(true)
    decreases |p|
  {
    var c, s := p[0], StepsOf(p);
    StepsFold(p, v);
    StepsTail(p);
    if Has(v, Name(c.name)) {
      var w := v.m[c.name];
      assert v.m[c.name := w] == v.m;
      if |p| == 1 {
        assert StepsOf(p[1..]) == [];
        if c.index.Some? {
          assert s[1..] == [Idx(c.index.value)];
        } else {
          assert s == [Name(c.name)];
        }
      } else {
        NamesFirst(p[1..]);
        match c.index
        case None =>
          assert s[1..] == StepsOf(p[1..]);
          DeleteIsRemove(w, p[1..], force);
        case Some(i) =>
          if Has(w, Idx(i)) {
            DeleteIsRemove(w.l[i], p[1..], force);
            assert w.l[i := w.l[i]] == w.l;
            if At(v, s).Some? {
              assert Remove(w, s[1..]) == Attach(w, Idx(i), Remove(w.l[i], StepsOf(p[1..])));
            }
          }
      }
    }
  }
}
