/** The in-memory payload, and what its operations promise about each other for printable keys. */
module Payload {
  import opened Wrappers
  import opened Tree
  import opened Keys
  import opened Access
  import opened Flatten
  import opened NumKeys

  class KvPayload {
    var data: Entries

    constructor (data: Entries)
      ensures this.data == data
    {
      this.data := data;
    }

    function Get(key: string): Result<Value, Fault>
      reads this
    {
      GetKey(key, data)
    }

    method Set(key: string, val: Value) returns (err: Option<Fault>)
      modifies this
      ensures (data, err) == SetC(old(data), Comps(key), val)
    {
      data, err := SetRec(key, val, data);
    }

    method Delete(key: string, force: bool) returns (r: Result<bool, Fault>)
      modifies this
      ensures (Dict(data), r) == DeleteC(Dict(old(data)), Comps(key), force)
    {
      var d;
      d, r := DeleteRec(key, Dict(data), force);
      DeleteKeepsDict(Dict(data), Comps(key), force);
      data := d.m;
    }

    method Keys() returns (keys: seq<string>, ghost ps: seq<Path>)
      ensures NoDup(keys)
      ensures forall k :: k in keys <==> HasKey(data, k)
      ensures forall i :: 0 <= i < |ps| ==> ps[i] != []
      ensures keys == KeysOf(ps)
      ensures NormalRoot(Dict(data)) ==> Enumerates(Dict(data), ps)
    {
      keys, ps := GetKeys(Dict(data));
    }

    /**
     `search`, below a parent that is a printable key of a normal tree. With a value: exactly the leaf keys with
     that name and value, each once. Without: exactly the leaf keys under a node with that name, each once. It
     raises what reading the parent raises, and only then.
     */
    method SearchKeys(parent: string, searchKey: string, searchVal: Value, ghost path: Path)
      returns (r: Result<seq<string>, Fault>)
      ensures r.Err? <==> Get(parent).Err?
      ensures r.Err? ==> r.error == Get(parent).error
      ensures NormalRoot(Dict(data)) && GoodSteps(path) && parent == KeyOf(path) ==>
        if r.Ok? then NoDup(r.value) && forall k :: k in r.value <==> SearchHit(data, path, searchKey, searchVal, k)
        else forall k :: !SearchHit(data, path, searchKey, searchVal, k)
    {
      if NormalRoot(Dict(data)) && GoodSteps(path) && parent == KeyOf(path) {
        SearchShape(data, path);
        NoHitWithoutContainer(data, path, searchKey, searchVal);
      }
      match Get(parent)
      case Err(e) => return Err(e);
      case Ok(v) =>
        var keys;
        ghost var ps;
        keys, ps := Search(v, searchKey, searchVal, parent, LastName("", path));
        if NormalRoot(Dict(data)) && GoodSteps(path) && parent == KeyOf(path) && Container(v) {
          SearchExact(data, path, searchKey, searchVal, v, keys, ps);
        }
        r := Ok(keys);
    }

    method AddNumKeys()
      modifies this
      ensures Dict(data) == AddNum(Dict(old(data)))
    {
      var r := AddNumRec(Dict(data));
      data := r.m;
    }
  }

  /** `k in get_keys()` */
  ghost predicate HasKey(d: Entries, k: string) {
    exists s :: Flat(Dict(d), s) && KeyOf(s) == k
  }

  lemma DeleteKeepsDict(v: Value, p: seq<Comp>, force: bool)
    requires v.Dict? && p != []
    ensures DeleteC(v, p, force).0.Dict?
  {
  }

  // ----- reading by printable keys -----

  /** What a key reads: a value, or nothing (None, or an exception). */
  function Reading(d: Entries, key: string): Option<Value> {
    match GetKey(key, d)
    case Ok(v) => if v == Null then None else Some(v)
    case Err(_) => None
  }

  /** The node at a path, where a stored None counts as nothing. */
  function Known(v: Value, s: Path): Option<Value> {
    if At(v, s) == Some(Null) then None else At(v, s)
  }

  lemma ReadIsAt(d: Entries, s: Path)
    requires GoodSteps(s)
    ensures Reading(d, KeyOf(s)) == Known(Dict(d), s)
    ensures At(Dict(d), s).Some? ==> GetKey(KeyOf(s), d) == Ok(At(Dict(d), s).value)
  {
    KeyRoundTrip(s);
    assert forall k :: 0 <= k < |Group(s)| ==> GoodComp(Group(s)[k]);
    GetIsAt(d, Group(s));
  }

  // ----- what reading answers -----

  /** The path leads to a dict without its name `k`, which has an index and is not the last name. */
  predicate LacksName(v: Value, s: Path, k: nat) {
    && k + 2 < |s| && s[k].Name? && s[k + 1].Idx?
    && At(v, s[..k]).Some? && At(v, s[..k]).value.Dict? && s[k].name !in At(v, s[..k]).value.m
  }

  /** The path ends in an index, of something that has no length. */
  predicate IndexesNumber(v: Value, s: Path) {
    && |s| > 1 && s[|s| - 1].Idx?
    && var w := At(v, s[..|s| - 1]);
       w.Some? && (w.value.Int? || w.value.Float? || w.value.Null?)
  }

  /** What a printable key answers or raises, from the nodes along its path. */
  ghost function Answer(v: Value, s: Path): Result<Value, Fault> {
    if exists k: nat :: LacksName(v, s, k) then Err(KeyFault)
    else if IndexesNumber(v, s) then Err(TypeFault)
    else if At(v, s).Some? then Ok(At(v, s).value)
    else Ok(Null)
  }

  lemma AtBelow(v: Value, s: Path, n: nat, k: nat)
    requires n + k <= |s| && At(v, s[..n]).Some?
    ensures At(v, s[..n + k]) == At(At(v, s[..n]).value, s[n..][..k])
  {
    var front, rest := s[..n], s[n..][..k];
    assert s[..n + k] == front + rest;
    AtConcat(v, front, rest);
  }

  lemma LacksBelow(v: Value, s: Path, n: nat, k: nat)
    requires n <= |s| && At(v, s[..n]).Some?
    ensures LacksName(v, s, n + k) <==> LacksName(At(v, s[..n]).value, s[n..], k)
  {
    if n + k + 2 < |s| {
      AtBelow(v, s, n, k);
      assert s[n..][k] == s[n + k] && s[n..][k + 1] == s[n + k + 1];
    }
  }

  lemma IndexesBelow(v: Value, s: Path, n: nat)
    requires n < |s| && s[n].Name? && At(v, s[..n]).Some?
    ensures IndexesNumber(v, s) <==> IndexesNumber(At(v, s[..n]).value, s[n..])
    ensures At(v, s) == At(At(v, s[..n]).value, s[n..])
  {
    var t := s[n..];
    AtBelow(v, s, n, |t|);
    AtBelow(v, s, n, |t| - 1);
    assert t[..|t|] == t && s[..|s|] == s;
  }

  /** A node on the way has the same answer for the rest of the way. */
  lemma AnswerBelow(v: Value, s: Path, n: nat)
    requires n < |s| && s[n].Name? && At(v, s[..n]).Some?
    ensures Answer(v, s) == Answer(At(v, s[..n]).value, s[n..])
  {
    var w, t := At(v, s[..n]).value, s[n..];
    if k: nat :| LacksName(w, t, k) {
      LacksBelow(v, s, n, k);
    }
    if k: nat :| LacksName(v, s, k) {
      if k < n {
        NameIsThere(v, s, n, k);
      } else {
        LacksBelow(v, s, n, k - n);
      }
    }
    IndexesBelow(v, s, n);
  }

  /** No name is lacking on a way that leads somewhere. */
  lemma NameIsThere(v: Value, s: Path, n: nat, k: nat)
    requires k < n <= |s| && At(v, s[..n]).Some?
    ensures !LacksName(v, s, k)
  {
    var rest := s[k..n];
    assert s[..n] == s[..k] + rest;
    AtConcat(v, s[..k], rest);
  }

  /** A way that wants a name where there is no dict answers None. */
  lemma DeadEnd(v: Value, s: Path, n: nat)
    requires n < |s| && s[n].Name?
    requires At(v, s[..n]).Some? ==> !At(v, s[..n]).value.Dict?
    requires forall k: nat :: k < n ==> !LacksName(v, s, k)
    ensures Answer(v, s) == Ok(Null)
  {
    forall k: nat | n < k <= |s| ensures At(v, s[..k]).None? {
      var rest := s[n..k];
      assert s[..k] == s[..n] + rest;
      AtConcat(v, s[..n], rest);
    }
    assert s[..|s|] == s;
  }

  lemma {:induction false} GetAnswers(d: Entries, s: Path)
    requires GoodSteps(s)
    ensures GetC(d, Group(s)) == Answer(Dict(d), s)
    decreases |s|
  {
    var v := Dict(d);
    var indexed := |s| > 1 && s[1].Idx?;
    var n := if indexed then 2 else 1;
    var rest := s[n..];
    OneStep(v, s);
    if rest != [] {
      assert s[n].Name? && GoodSteps(rest);
      assert Group(s)[1..] == Group(rest);
      if At(v, s[..n]).Some? && At(v, s[..n]).value.Dict? {
        AnswerBelow(v, s, n);
        GetAnswers(At(v, s[..n]).value.m, rest);
      } else if indexed && s[0].name !in d {
        assert LacksName(v, s, 0);
      } else {
        DeadEnd(v, s, n);
      }
    } else {
      assert s[..n] == s;
    }
  }

  lemma OneStep(v: Value, s: Path)
    requires s != []
    ensures At(v, s[..0]) == Some(v)
    ensures At(v, s[..1]) == if Has(v, s[0]) then Some(Child(v, s[0])) else None
    ensures |s| > 1 ==>
      (At(v, s[..2]) == if Has(v, s[0]) && Has(Child(v, s[0]), s[1]) then Some(Child(Child(v, s[0]), s[1])) else None)
  {
    assert s[..0] == [] && s[..1] == [s[0]] && [s[0]][1..] == [];
    if |s| > 1 {
      var w := Child(v, s[0]);
      assert s[..2][1..] == [s[1]] && [s[1]][1..] == [];
      assert At(w, [s[1]]) == if Has(w, s[1]) then Some(Child(w, s[1])) else None;
    }
  }

  /**
   Reading a printable key: KeyError if and only if the way to its node lacks a name that has an index and is not the
   last one, TypeError if and only if it ends in an index of a number or None; else the node, or None if there is none.
   */
  lemma ReadExactly(d: Entries, s: Path)
    requires GoodSteps(s)
    ensures GetKey(KeyOf(s), d) == Answer(Dict(d), s)
  {
    KeyRoundTrip(s);
    GetAnswers(d, s);
  }

  // ----- set -----

  lemma SetKeyIsPut(d: Entries, s: Path, x: Value)
    requires GoodSteps(s)
    ensures SetC(d, Comps(KeyOf(s)), x) ==
            if Blocked(Dict(d), s) then (d, Some(AttributeFault)) else (Put(Dict(d), s, x).m, None)
  {
    KeyRoundTrip(s);
    assert forall k :: 0 <= k < |Group(s)| ==> GoodComp(Group(s)[k]);
    SetIsPut(d, Group(s), x);
  }

  /** After `set(k, x)`, `get(k)` is `x`. */
  lemma SetThenGet(d: Entries, s: Path, x: Value)
    requires GoodSteps(s) && !Blocked(Dict(d), s)
    ensures SetC(d, Comps(KeyOf(s)), x).1 == None
    ensures GetKey(KeyOf(s), SetC(d, Comps(KeyOf(s)), x).0) == Ok(x)
  {
    SetKeyIsPut(d, s, x);
    PutThenAt(Dict(d), s, x);
    ReadIsAt(Put(Dict(d), s, x).m, s);
  }

  /**
   What `set(k, x)` does to another key that is neither above nor below `k`. If it read a value, it
   still reads it exactly when the keys part at two names or at two indices; if it read nothing, it
   gains a value exactly when it is a slot that the new list needed in front of `k`.
   */
  lemma SetFrame(d: Entries, s: Path, x: Value, t: Path)
    requires GoodSteps(s) && GoodSteps(t) && Apart(s, t) && !Blocked(Dict(d), s)
    ensures var e := SetC(d, Comps(KeyOf(s)), x).0;
      match Reading(d, KeyOf(t))
      case Some(v) => (Reading(e, KeyOf(t)) == Some(v) <==> PartAlike(s, t)) &&
                      (!PartAlike(s, t) ==> Reading(e, KeyOf(t)) == None)
      case None => Reading(e, KeyOf(t)) == if Padded(Dict(d), s, t) then Some(Str("")) else None
  {
    SetKeyIsPut(d, s, x);
    PutFrame(Dict(d), s, x, t);
    ReadIsAt(d, t);
    ReadIsAt(Put(Dict(d), s, x).m, t);
    if Padded(Dict(d), s, t) {
      PaddedIsNew(Dict(d), s, t);
    }
  }

  lemma {:induction false} PaddedIsNew(v: Value, s: Path, t: Path)
    requires Padded(v, s, t)
    ensures At(v, t).None?
    decreases |s|
  {
    if s[0] == t[0] {
      PaddedIsNew(Child(v, s[0]), s[1..], t[1..]);
    }
  }

  /** Keys that part at a name and an index do occur: setting a list slot wipes out a dict. */
  lemma SetReplacesDict(d: Entries, n: string, m: string, i: nat, x: Value)
    requires GoodName(n) && GoodName(m)
    requires n in d && d[n].Dict? && m in d[n].m && d[n].m[m] != Null
    ensures var a, b := [Name(n), Idx(i)], [Name(n), Name(m)];
      && Reading(d, KeyOf(b)) == Some(d[n].m[m])
      && SetC(d, Comps(KeyOf(a)), x).1 == None && Reading(SetC(d, Comps(KeyOf(a)), x).0, KeyOf(b)) == None
  {
    var a, b := [Name(n), Idx(i)], [Name(n), Name(m)];
    AtTwo(Dict(d), Name(n), Name(m));
    ReadIsAt(d, b);
    PutCons(Dict(d), Name(n), [Idx(i)], x);
    PutCons(d[n], Idx(i), [], x);
    SetThenGet(d, a, x);
    SetFrame(d, a, x, b);
  }

  // ----- delete -----

  lemma DeleteKeyIsRemove(d: Entries, s: Path, force: bool)
    requires GoodSteps(s)
    ensures var (v, r) := DeleteC(Dict(d), Comps(KeyOf(s)), force);
      if At(Dict(d), s).None? then v == Dict(d) && r != Ok(true)
      else if force || s[|s| - 1].Idx? || !Occupied(At(Dict(d), s).value) then v == Remove(Dict(d), s) && r == Ok(true)
      else v == Dict(d) && r == Err(InvalidKey)
  {
    KeyRoundTrip(s);
    DeleteIsRemove(Dict(d), Group(s), force);
    LastIndexed(Group(s));
  }

  /**
   `delete` either answers True and removes exactly the node at the key — which then reads nothing,
   or blank if later list slots would have to move — or changes nothing at all.
   */
  lemma DeleteLaw(d: Entries, s: Path, force: bool)
    requires GoodSteps(s)
    ensures var (v, r) := DeleteC(Dict(d), Comps(KeyOf(s)), force);
      && v.Dict?
      && (r != Ok(true) ==> v == Dict(d))
      && (r == Ok(true) <==>
            && At(Dict(d), s).Some?
            && (force || s[|s| - 1].Idx? || At(Dict(d), s).value in [Dict(map[]), List([])] ||
                !Container(At(Dict(d), s).value)))
      && (r == Ok(true) ==> Reading(v.m, KeyOf(s)) == if InnerSlot(Dict(d), s) then Some(Str("")) else None)
      && (At(Dict(d), s).Some? && r != Ok(true) ==> r == Err(InvalidKey))
  {
    DeleteKeyIsRemove(d, s, force);
    if At(Dict(d), s).Some? {
      RemoveThenAt(Dict(d), s);
      RemoveKeepsDict(Dict(d), s);
      ReadIsAt(Remove(Dict(d), s).m, s);
    }
  }

  lemma RemoveKeepsDict(v: Value, s: Path)
    requires v.Dict? && s != [] && At(v, s).Some?
    ensures Remove(v, s).Dict?
  {
  }

  lemma {:induction false} LastIndexed(p: seq<Comp>)
    requires p != []
    ensures StepsOf(p) != [] && StepsOf(p)[|StepsOf(p)| - 1].Idx? == p[|p| - 1].index.Some?
    decreases |p|
  {
    if |p| == 1 {
      assert StepsOf(p[1..]) == [];
    } else {
      LastIndexed(p[1..]);
    }
  }

  /** No deletion disturbs a key that is neither above nor below the deleted one. */
  lemma DeleteFrame(d: Entries, s: Path, force: bool, t: Path)
    requires GoodSteps(s) && GoodSteps(t) && Apart(s, t)
    ensures DeleteC(Dict(d), Comps(KeyOf(s)), force).0.Dict?
    ensures Reading(DeleteC(Dict(d), Comps(KeyOf(s)), force).0.m, KeyOf(t)) == Reading(d, KeyOf(t))
  {
    DeleteKeyIsRemove(d, s, force);
    if At(Dict(d), s).Some? {
      RemoveKeepsDict(Dict(d), s);
      RemoveFrame(Dict(d), s, t);
      ReadIsAt(Remove(Dict(d), s).m, t);
      ReadIsAt(d, t);
    }
  }

  // ----- search -----

  /**
   `k` is the key of the leaf at `s` below `parent`, with the searched name and value, or, without a value, under a
   node, from the parent on, whose printed key ends in the searched name.
   */
  ghost predicate LeafBelow(d: Entries, parent: Path, name: string, val: Value, k: string, s: Path) {
    && s != [] && Leaf(Dict(d), parent + s) && k == KeyOf(parent + s)
    && if val == Null then parent != [] && UnderName(LastSegment(KeyOf(parent)), name, s)
       else LastName("", parent + s) == name && LeafAt(Dict(d), parent + s) == Some(val)
  }

  ghost predicate SearchHit(d: Entries, parent: Path, name: string, val: Value, k: string) {
    exists s :: LeafBelow(d, parent, name, val, k, s)
  }

  lemma {:induction false} NormalAt(v: Value, s: Path)
    requires (Normal(v) || NormalRoot(v)) && At(v, s).Some?
    ensures s != [] ==> Normal(At(v, s).value) && (At(v, s).value.List? ==> s[|s| - 1].Name?)
    decreases |s|
  {
    if s != [] {
      NormalAt(Child(v, s[0]), s[1..]);
      if |s| == 1 {
        assert s[1..] == [];
      }
    }
  }

  lemma {:induction false} LastNameConcat(base: string, s: Path, t: Path)
    ensures LastName(base, s + t) == LastName(LastName(base, s), t)
    decreases |s|
  {
    if s == [] {
      assert s + t == t;
    } else {
      assert (s + t)[1..] == s[1..] + t;
      LastNameConcat(if s[0].Name? then s[0].name else base, s[1..], t);
    }
  }

  /** Keys are printed by appending, and never empty, as long as names are not empty. */
  lemma {:induction false} PathTextConcat(prefix: Option<string>, s: Path, t: Path)
    requires s != [] && t != [] && (prefix == None ==> s[0].Name?)
    requires prefix != Some("") && forall k :: 0 <= k < |s| && s[k].Name? ==> s[k].name != ""
    ensures PathText(prefix, s) != ""
    ensures PathText(prefix, s + t) == PathText(Some(PathText(prefix, s)), t)
    decreases |s|
  {
    assert (s + t)[1..] == s[1..] + t;
    if |s| == 1 {
      assert s[1..] + t == t;
    } else {
      forall k | 0 <= k < |s[1..]| && s[1..][k].Name? ensures s[1..][k].name != "" {
        assert s[1..][k] == s[k + 1];
      }
      PathTextConcat(Some(ExtendText(prefix, s[0])), s[1..], t);
    }
  }

  lemma NamesNotEmpty(s: Path)
    requires GoodSteps(s)
    ensures forall k :: 0 <= k < |s| && s[k].Name? ==> s[k].name != ""
  {
  }

  /** Keys are printed from left to right: a name after `>`, unless it is the first, and an index in brackets. */
  lemma KeyGrows(s: Path, a: Step)
    requires GoodSteps(s)
    ensures a.Name? ==> KeyOf([a]) == a.name
    ensures KeyOf(s + [a]) == KeyOf(s) + if a.Name? then ">" + a.name else "[" + NatText(a.i) + "]"
  {
    NamesNotEmpty(s);
    PathTextConcat(None, s, [a]);
    ExtendByMore(KeyOf(s), a, if a.Name? then ">" + a.name else "[" + NatText(a.i) + "]");
  }

  /** A printed key is not empty, and one that ends in a name has that name as its last segment. */
  lemma KeyShape(s: Path)
    requires GoodSteps(s)
    ensures KeyOf(s) != ""
    ensures s[|s| - 1].Name? ==> LastSegment(KeyOf(s)) == LastName("", s)
  {
    NamesNotEmpty(s);
    PathTextConcat(None, s, [Name("x")]);
    var n := s[|s| - 1];
    if n.Name? {
      var front := s[..|s| - 1];
      assert s == front + [n];
      LastNameConcat("", front, [n]);
      if front == [] {
        LastSegmentOf("", n.name);
      } else {
        PathTextConcat(None, front, [n]);
        LastSegmentOf(KeyOf(front), n.name);
      }
    }
  }

  /** A parent that reads a container is a node of the tree, ready to be searched. */
  lemma SearchShape(d: Entries, parent: Path)
    requires NormalRoot(Dict(d)) && GoodSteps(parent)
    ensures KeyOf(parent) != ""
    ensures var got := GetKey(KeyOf(parent), d);
      got.Ok? && Container(got.value) ==>
        At(Dict(d), parent) == Some(got.value) && Normal(got.value) &&
        (got.value.List? ==> LastSegment(KeyOf(parent)) == LastName("", parent))
  {
    ReadIsAt(d, parent);
    KeyShape(parent);
    if At(Dict(d), parent).Some? {
      NormalAt(Dict(d), parent);
    }
  }

  /** No leaf lies below a parent that does not read a container. */
  lemma NoHitWithoutContainer(d: Entries, parent: Path, name: string, val: Value)
    requires GoodSteps(parent)
    ensures var got := GetKey(KeyOf(parent), d);
      !(got.Ok? && Container(got.value)) ==> forall k :: !SearchHit(d, parent, name, val, k)
  {
    ReadIsAt(d, parent);
    forall k | SearchHit(d, parent, name, val, k)
      ensures At(Dict(d), parent).Some? && Container(At(Dict(d), parent).value)
    {
      var s :| LeafBelow(d, parent, name, val, k, s);
      AtConcat(Dict(d), parent, s);
    }
  }

  /** `keys` are what the search finds below the container `v` at `parent`. */
  ghost predicate FoundBelow(d: Entries, parent: Path, name: string, val: Value, v: Value,
                             keys: seq<string>, ps: seq<Path>)
  {
    && NormalRoot(Dict(d)) && GoodSteps(parent) && At(Dict(d), parent) == Some(v) && Normal(v)
    && Found(v, LastName("", parent), name, val, KeyOf(parent), StepsIn(v), keys, ps)
  }

  lemma SearchExact(d: Entries, parent: Path, name: string, val: Value, v: Value, keys: seq<string>, ps: seq<Path>)
    requires FoundBelow(d, parent, name, val, v, keys, ps)
    ensures NoDup(keys)
    ensures forall k :: k in keys <==> SearchHit(d, parent, name, val, k)
  {
    forall i, j | 0 <= i < j < |keys| ensures keys[i] != keys[j] {
      SearchDistinct(d, parent, name, val, v, keys, ps, i, j);
    }
    forall k ensures k in keys <==> SearchHit(d, parent, name, val, k) {
      if k in keys {
        SearchSound(d, parent, name, val, v, keys, ps, k);
      }
      if SearchHit(d, parent, name, val, k) {
        SearchComplete(d, parent, name, val, v, keys, ps, k);
      }
    }
  }

  lemma SearchDistinct(d: Entries, parent: Path, name: string, val: Value, v: Value, keys: seq<string>, ps: seq<Path>,
                       i: nat, j: nat)
    requires FoundBelow(d, parent, name, val, v, keys, ps) && i < j < |keys|
    ensures keys[i] != keys[j]
  {
    assert ps[i] in ps && ps[j] in ps && ps[i] != ps[j];
    BelowIsLeaf(d, parent, v, ps[i]);
    BelowIsLeaf(d, parent, v, ps[j]);
    assert (parent + ps[i])[|parent|..] == ps[i] && (parent + ps[j])[|parent|..] == ps[j];
    if keys[i] == keys[j] {
      KeysDistinct(parent + ps[i], parent + ps[j]);
    }
  }

  lemma HitIsLeafBelow(d: Entries, parent: Path, name: string, val: Value, v: Value, s: Path)
    requires NormalRoot(Dict(d)) && GoodSteps(parent) && At(Dict(d), parent) == Some(v) && Normal(v) && s != []
    ensures Hit(v, LastName("", parent), LastSegment(KeyOf(parent)), name, val, s) <==>
            LeafBelow(d, parent, name, val, KeyOf(parent + s), s)
  {
    BelowIsLeaf(d, parent, v, s);
  }

  lemma SearchSound(d: Entries, parent: Path, name: string, val: Value, v: Value, keys: seq<string>, ps: seq<Path>,
                    k: string)
    requires FoundBelow(d, parent, name, val, v, keys, ps) && k in keys
    ensures SearchHit(d, parent, name, val, k)
  {
    var i :| 0 <= i < |keys| && keys[i] == k;
    assert ps[i] in ps;
    BelowIsLeaf(d, parent, v, ps[i]);
    HitIsLeafBelow(d, parent, name, val, v, ps[i]);
    assert LeafBelow(d, parent, name, val, k, ps[i]);
  }

  lemma SearchComplete(d: Entries, parent: Path, name: string, val: Value, v: Value, keys: seq<string>, ps: seq<Path>,
                       k: string)
    requires FoundBelow(d, parent, name, val, v, keys, ps) && SearchHit(d, parent, name, val, k)
    ensures k in keys
  {
    var s :| LeafBelow(d, parent, name, val, k, s);
    BelowIsLeaf(d, parent, v, s);
    HitIsLeafBelow(d, parent, name, val, v, s);
    assert s[0] in StepsIn(v);
    var i :| 0 <= i < |ps| && ps[i] == s;
    assert keys[i] == k;
  }

  /** A path below the parent, seen from the parent and from the root. */
  lemma BelowIsLeaf(d: Entries, parent: Path, v: Value, s: Path)
    requires NormalRoot(Dict(d)) && GoodSteps(parent) && At(Dict(d), parent) == Some(v) && Normal(v) && s != []
    ensures PathText(Some(KeyOf(parent)), s) == KeyOf(parent + s)
    ensures LastName("", parent + s) == LastName(LastName("", parent), s)
    ensures At(Dict(d), parent + s) == At(v, s)
    ensures Flat(v, s) <==> Leaf(Dict(d), parent + s)
    ensures Flat(v, s) ==> GoodSteps(parent + s)
  {
    NamesNotEmpty(parent);
    PathTextConcat(None, parent, s);
    AtConcat(Dict(d), parent, s);
    LastNameConcat("", parent, s);
    FlatIsLeaf(v, s);
    if Flat(v, s) {
      LeavesAreGood(Dict(d), parent + s);
    }
  }

  /** Each search result is one of the payload's keys and reads the searched value. */
  lemma SearchHitsRead(d: Entries, parent: Path, name: string, val: Value, k: string)
    requires NormalRoot(Dict(d)) && SearchHit(d, parent, name, val, k)
    ensures HasKey(d, k) && (val != Null ==> GetKey(k, d) == Ok(val))
  {
    var s :| LeafBelow(d, parent, name, val, k, s);
    LeavesAreGood(Dict(d), parent + s);
    FlatIsLeaf(Dict(d), parent + s);
    ReadIsAt(d, parent + s);
  }
}
