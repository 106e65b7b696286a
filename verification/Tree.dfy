/**
 The data held by a payload: nested dicts, lists and scalars, addressed by paths of single steps.

 Every operation descends one step at a time, so the three one-step operations `Has`, `Child` and
 `Attach` carry all the case distinctions, and the operations on paths recurse over the path alone.
 */
module Tree {
  import opened Wrappers

  datatype Value =
    | Null
    | Float(r: real)
    | Str(s: string)
    | Int(n: int)
    | Dict(m: map<string, Value>)
    | List(l: seq<Value>)

  /** One move down the tree: into a dict entry or into a list slot. */
  datatype Step = Name(name: string) | Idx(i: nat)

  type Path = seq<Step>

  /** What an unset list slot holds. */
  const Blank := Str("")

  /** The values `get_keys` reports: `isinstance(val, (str, int))`. */
  predicate Scalar(v: Value) {
    v.Str? || v.Int?
  }

  predicate Container(v: Value) {
    v.Dict? || v.List?
  }

  predicate SameStepKind(a: Step, b: Step) {
    a.Name? == b.Name?
  }

  // ----- one step -----

  predicate Has(v: Value, a: Step) {
    match a
    case Name(n) => v.Dict? && n in v.m
    case Idx(i) => v.List? && i < |v.l|
  }

  function Child(v: Value, a: Step): Value {
    if !Has(v, a) then Blank
    else match a
      case Name(n) => v.m[n]
      case Idx(i) => v.l[i]
  }

  function Pad(l: seq<Value>, n: nat): (r: seq<Value>)
    ensures |r| == if |l| < n then n else |l|
    ensures forall k :: 0 <= k < |r| ==> r[k] == if k < |l| then l[k] else Blank
  {
    if |l| < n then l + seq(n - |l|, _ => Blank) else l
  }

  /** `v` with `c` under step `a`; a `v` of the wrong kind is replaced by a fresh container. */
  function Attach(v: Value, a: Step, c: Value): Value {
    match a
    case Name(n) => Dict((if v.Dict? then v.m else map[])[n := c])
    case Idx(i) => List(Pad(if v.List? then v.l else [], i + 1)[i := c])
  }

  /** Attaching under list slot `a` creates the empty slot `b` in front of it. */
  predicate PadSlot(v: Value, a: Step, b: Step) {
    a.Idx? && b.Idx? && b.i < a.i && !Has(v, b)
  }

  lemma AttachChild(v: Value, a: Step, c: Value, b: Step)
    ensures Has(Attach(v, a, c), b) <==> a == b || (SameStepKind(a, b) && (Has(v, b) || PadSlot(v, a, b)))
    ensures Child(Attach(v, a, c), b) == if a == b then c else if SameStepKind(a, b) then Child(v, b) else Blank
  {
  }

  lemma AttachSame(v: Value, a: Step)
    requires Has(v, a)
    ensures Attach(v, a, Child(v, a)) == v
  {
    match a
    case Name(n) => assert v.m[n := v.m[n]] == v.m;
    case Idx(i) => assert v.l[i := v.l[i]] == v.l;
  }

  // ----- paths -----

  /** The node at `s`, if every step of `s` can be taken. */
  function At(v: Value, s: Path): Option<Value> {
    if s == [] then Some(v)
    else if Has(v, s[0]) then At(Child(v, s[0]), s[1..])
    else None
  }

  /** `v` with `x` at `s`, creating what is missing and replacing containers of the wrong kind. */
  function Put(v: Value, s: Path, x: Value): Value
    decreases |s|
  {
    if s == [] then x else Attach(v, s[0], Put(Child(v, s[0]), s[1..], x))
  }

  /** Neither path is a prefix of the other. */
  predicate Apart(s: Path, t: Path) {
    s != [] && t != [] && (s[0] != t[0] || Apart(s[1..], t[1..]))
  }

  /** Where the two paths part, both ask for a dict entry or both ask for a list slot. */
  predicate PartAlike(s: Path, t: Path)
    requires Apart(s, t)
  {
    if s[0] == t[0] then PartAlike(s[1..], t[1..]) else SameStepKind(s[0], t[0])
  }

  /** `t` is exactly a list slot that `Put(v, s, _)` has to create in front of its own. */
  predicate Padded(v: Value, s: Path, t: Path)
    decreases |s|
  {
    s != [] && t != [] &&
    if s[0] == t[0] then Padded(Child(v, s[0]), s[1..], t[1..])
    else |t| == 1 && PadSlot(v, s[0], t[0])
  }

  lemma {:induction false} ApartIsUnrelated(s: Path, t: Path)
    ensures Apart(s, t) <==> !(s <= t) && !(t <= s)
  {
    if s != [] && t != [] && s[0] == t[0] {
      ApartIsUnrelated(s[1..], t[1..]);
      assert s == [s[0]] + s[1..] && t == [t[0]] + t[1..];
      assert s <= t <==> s[1..] <= t[1..];
      assert t <= s <==> t[1..] <= s[1..];
    }
  }

  lemma {:induction false} ApartSymmetric(s: Path, t: Path)
    ensures Apart(s, t) <==> Apart(t, s)
    ensures Apart(s, t) ==> (PartAlike(s, t) <==> PartAlike(t, s))
  {
    if s != [] && t != [] && s[0] == t[0] {
      ApartSymmetric(s[1..], t[1..]);
    }
  }

  lemma {:induction false} AtConcat(v: Value, s: Path, t: Path)
    ensures At(v, s + t) == if At(v, s).Some? then At(At(v, s).value, t) else None
  {
    if s == [] {
      assert s + t == t;
    } else {
      assert (s + t)[1..] == s[1..] + t;
      if Has(v, s[0]) {
        AtConcat(Child(v, s[0]), s[1..], t);
      }
    }
  }

  lemma AtTwo(v: Value, a: Step, b: Step)
    requires Has(v, a) && Has(Child(v, a), b)
    ensures At(v, [a, b]) == Some(Child(Child(v, a), b))
  {
    assert [a, b][1..] == [b] && [b][1..] == [];
    assert At(Child(v, a), [b]) == Some(Child(Child(v, a), b));
  }

  lemma {:induction false} PutThenAt(v: Value, s: Path, x: Value)
    ensures At(Put(v, s, x), s) == Some(x)
    decreases |s|
  {
    if s != [] {
      AttachChild(v, s[0], Put(Child(v, s[0]), s[1..], x), s[0]);
      PutThenAt(Child(v, s[0]), s[1..], x);
    }
  }

  /**
   What `Put` at `s` does to a path `t` beside it. A node that `t` reached stays exactly when the two
   paths part alike (otherwise its container is replaced); a path that reached nothing gains a value
   exactly when it is a padded slot.
   */
  lemma {:induction false} PutFrame(v: Value, s: Path, x: Value, t: Path)
    requires Apart(s, t)
    ensures At(v, t).Some? ==> At(Put(v, s, x), t) == if PartAlike(s, t) then At(v, t) else None
    ensures At(v, t).None? ==> At(Put(v, s, x), t) == if Padded(v, s, t) then Some(Blank) else None
    decreases |s|
  {
    var c := Put(Child(v, s[0]), s[1..], x);
    AttachChild(v, s[0], c, t[0]);
    if s[0] == t[0] {
      PutFrame(Child(v, s[0]), s[1..], x, t[1..]);
    }
  }

  /** `Put` meets, where it wants a dict, a value that has no entries and that it does not replace. */
  predicate Blocked(v: Value, s: Path)
    decreases |s|
  {
    s != [] && ((s[0].Name? && (v.Int? || v.Float? || v.Null?)) || Blocked(Child(v, s[0]), s[1..]))
  }

  lemma PutCons(v: Value, a: Step, s: Path, x: Value)
    ensures Put(v, [a] + s, x) == Attach(v, a, Put(Child(v, a), s, x))
    ensures Blocked(v, [a] + s) == ((a.Name? && (v.Int? || v.Float? || v.Null?)) || Blocked(Child(v, a), s))
  {
    assert ([a] + s)[1..] == s;
  }

  /** Writing back what is there changes nothing. */
  lemma {:induction false} PutSame(v: Value, s: Path)
    requires At(v, s).Some?
    ensures Put(v, s, At(v, s).value) == v && !Blocked(v, s)
    decreases |s|
  {
    if s != [] {
      PutSame(Child(v, s[0]), s[1..]);
      AttachSame(v, s[0]);
    }
  }

  // ----- removal -----

  function Detach(v: Value, a: Step): Value
    requires Has(v, a)
  {
    match a
    case Name(n) => Dict(v.m - {n})
    case Idx(i) => List(if i == |v.l| - 1 then v.l[..i] else v.l[i := Blank])
  }

  function Remove(v: Value, s: Path): Value
    requires s != [] && At(v, s).Some?
    decreases |s|
  {
    if |s| == 1 then Detach(v, s[0]) else Attach(v, s[0], Remove(Child(v, s[0]), s[1..]))
  }

  /** `s` leads to a list slot with another slot after it. */
  predicate InnerSlot(v: Value, s: Path)
    requires s != [] && At(v, s).Some?
    decreases |s|
  {
    if |s| == 1 then s[0].Idx? && s[0].i < |v.l| - 1 else InnerSlot(Child(v, s[0]), s[1..])
  }

  /** A removed node is gone, or blank if removing it would shift later slots. */
  lemma {:induction false} RemoveThenAt(v: Value, s: Path)
    requires s != [] && At(v, s).Some?
    ensures At(Remove(v, s), s) == if InnerSlot(v, s) then Some(Blank) else None
    decreases |s|
  {
    if |s| > 1 {
      AttachChild(v, s[0], Remove(Child(v, s[0]), s[1..]), s[0]);
      RemoveThenAt(Child(v, s[0]), s[1..]);
    }
  }

  /** Removal changes nothing beside the removed node. */
  lemma {:induction false} RemoveFrame(v: Value, s: Path, t: Path)
    requires At(v, s).Some? && Apart(s, t)
    ensures At(Remove(v, s), t) == At(v, t)
    decreases |s|
  {
    if |s| == 1 {
      assert s[0] != t[0];
    } else {
      AttachChild(v, s[0], Remove(Child(v, s[0]), s[1..]), t[0]);
      if s[0] == t[0] {
        RemoveFrame(Child(v, s[0]), s[1..], t[1..]);
      } else if PadSlot(v, s[0], t[0]) {
        assert false;
      }
    }
  }

  // ----- leaves and normal form -----

  predicate Leaf(v: Value, s: Path) {
    At(v, s).Some? && Scalar(At(v, s).value)
  }

  function LeafAt(v: Value, s: Path): Option<Value> {
    if Leaf(v, s) then At(v, s) else None
  }

  /** Whitespace as Python's `str.strip` removes it. */
  predicate IsSpace(c: char) {
    var n := c as int;
    9 <= n <= 13 || 28 <= n <= 32 || n == 0x85 || n == 0xA0 || n == 0x1680 || 0x2000 <= n <= 0x200A ||
    n == 0x2028 || n == 0x2029 || n == 0x202F || n == 0x205F || n == 0x3000
  }

  predicate IsBlank(s: string) {
    forall k :: 0 <= k < |s| ==> IsSpace(s[k])
  }

  predicate GoodName(n: string) {
    !IsBlank(n) && '>' !in n && '[' !in n
  }

  /** Below the root: scalars at the leaves, no empty container, no list inside a list, usable names. */
  predicate Normal(v: Value) {
    match v
    case Str(_) => true
    case Int(_) => true
    case Dict(m) => m != map[] && forall n :: n in m ==> GoodName(n) && Normal(m[n])
    case List(l) => l != [] && forall i :: 0 <= i < |l| ==> !l[i].List? && Normal(l[i])
    case _ => false
  }

  /** The root dict itself may be empty. */
  predicate NormalRoot(v: Value) {
    v.Dict? && forall n :: n in v.m ==> GoodName(n) && Normal(v.m[n])
  }

  /** Usable names, where an index comes first or follows a name. */
  predicate GoodBelow(s: Path) {
    forall k :: 0 <= k < |s| ==>
      (s[k].Name? ==> GoodName(s[k].name)) && (s[k].Idx? && k > 0 ==> s[k - 1].Name?)
  }

  /** Paths that the key syntax can express: usable names, each followed by at most one index. */
  predicate GoodSteps(s: Path) {
    s != [] && s[0].Name? && GoodBelow(s)
  }

  lemma GoodTail(s: Path)
    requires s != []
    ensures GoodBelow(s) <==>
            GoodBelow(s[1..]) && (s[0].Name? ==> GoodName(s[0].name)) && (s[0].Idx? && |s| > 1 ==> s[1].Name?)
  {
    var t := s[1..];
    assert forall k :: 0 <= k < |t| ==> t[k] == s[k + 1];
    if GoodBelow(t) && (s[0].Name? ==> GoodName(s[0].name)) && (s[0].Idx? && |s| > 1 ==> s[1].Name?) {
      forall k | 0 <= k < |s|
        ensures (s[k].Name? ==> GoodName(s[k].name)) && (s[k].Idx? && k > 0 ==> s[k - 1].Name?)
      {
        if k > 0 {
          assert s[k] == t[k - 1];
          if k > 1 {
            assert s[k - 1] == t[k - 2];
          }
        }
      }
    }
  }

  lemma LeafStep(v: Value, a: Step, s: Path)
    ensures LeafAt(v, [a] + s) == if Has(v, a) then LeafAt(Child(v, a), s) else None
  {
    assert ([a] + s)[1..] == s;
  }

  /** Every normal value has a leaf. */
  lemma {:induction false} SomeLeaf(v: Value) returns (s: Path)
    requires Normal(v)
    ensures Leaf(v, s)
    decreases v
  {
    match v
    case Str(_) => s := [];
    case Int(_) => s := [];
    case Dict(m) =>
      var n :| n in m;
      var t := SomeLeaf(m[n]);
      s := [Name(n)] + t;
      LeafStep(v, Name(n), t);
    case List(l) =>
      var t := SomeLeaf(l[0]);
      s := [Idx(0)] + t;
      LeafStep(v, Idx(0), t);
  }

  ghost predicate SameLeaves(a: Value, b: Value) {
    forall s :: LeafAt(a, s) == LeafAt(b, s)
  }

  /** With equal leaves, what `a` has under a step `b` has too, with equal leaves below. */
  lemma {:induction false} SameLeavesBelow(a: Value, b: Value, c: Step)
    requires SameLeaves(a, b)
    requires Has(a, c) && Normal(Child(a, c))
    ensures Has(b, c)
    ensures SameLeaves(Child(a, c), Child(b, c))
  {
    var t := SomeLeaf(Child(a, c));
    LeafStep(a, c, t);
    LeafStep(b, c, t);
    forall s ensures LeafAt(Child(a, c), s) == LeafAt(Child(b, c), s) {
      LeafStep(a, c, s);
      LeafStep(b, c, s);
    }
  }

  /** Flattening is injective: normal values with the same leaves are equal. */
  lemma {:induction false} LeavesDetermine(a: Value, b: Value)
    requires Normal(a) && Normal(b)
    requires SameLeaves(a, b)
    ensures a == b
    decreases a, 1
  {
    assert LeafAt(a, []) == LeafAt(b, []);
    match a
    case Str(_) =>
    case Int(_) =>
    case Dict(m) =>
      var n :| n in m;
      SameLeavesBelow(a, b, Name(n));
      DictLeavesDetermine(a, b);
    case List(l) =>
      assert Child(a, Idx(|l| - 1)) == l[|l| - 1];
      SameLeavesBelow(a, b, Idx(|l| - 1));
      forall i | 0 <= i < |l| ensures l[i] == b.l[i] {
        SameLeavesBelow(a, b, Idx(i));
        assert Child(a, Idx(i)) == l[i] && Child(b, Idx(i)) == b.l[i];
        LeavesDetermine(l[i], b.l[i]);
      }
      if |b.l| > |l| {
        assert Child(b, Idx(|l|)) == b.l[|l|];
        SameLeavesBelow(b, a, Idx(|l|));
      }
      assert l == b.l;
  }

  /** The same for two dicts, either of which may be empty. */
  lemma {:induction false} DictLeavesDetermine(a: Value, b: Value)
    requires NormalRoot(a) && NormalRoot(b)
    requires SameLeaves(a, b)
    ensures a == b
    decreases a, 0
  {
    forall n | n in a.m ensures n in b.m && a.m[n] == b.m[n] {
      SameLeavesBelow(a, b, Name(n));
      assert Child(a, Name(n)) == a.m[n] && Child(b, Name(n)) == b.m[n];
      LeavesDetermine(a.m[n], b.m[n]);
    }
    forall n | n in b.m ensures n in a.m {
      SameLeavesBelow(b, a, Name(n));
    }
    assert a.m == b.m;
  }

  /** Two leaves of one tree part, and part alike. */
  lemma {:induction false} LeavesPart(v: Value, s: Path, t: Path)
    requires Leaf(v, s) && Leaf(v, t) && s != t
    ensures Apart(s, t) && PartAlike(s, t)
    decreases |s|
  {
    if s != [] && t != [] && s[0] == t[0] {
      assert s == [s[0]] + s[1..] && t == [t[0]] + t[1..];
      LeavesPart(Child(v, s[0]), s[1..], t[1..]);
    }
  }

  lemma {:induction false} LeafShape(v: Value, s: Path)
    requires Normal(v) && Leaf(v, s)
    ensures GoodBelow(s)
    ensures s != [] ==> s[0].Name? == v.Dict?
    decreases |s|
  {
    if s != [] {
      LeafShape(Child(v, s[0]), s[1..]);
      GoodTail(s);
    }
  }

  /** Leaves of a normal tree are paths that the key syntax can express. */
  lemma {:induction false} LeavesAreGood(v: Value, s: Path)
    requires NormalRoot(v) && Leaf(v, s)
    ensures GoodSteps(s)
  {
    if v.m == map[] {
      assert false;
    } else {
      LeafShape(v, s);
    }
  }

  /** Where `Put` into a normal tree is blocked, a number lies above its path. */
  lemma {:induction false} BlockedByLeaf(v: Value, s: Path) returns (k: nat)
    requires Normal(v) || NormalRoot(v)
    requires Blocked(v, s)
    ensures k < |s| && Leaf(v, s[..k]) && At(v, s[..k]).value.Int? && s[k].Name?
    decreases |s|
  {
    if s[0].Name? && (v.Int? || v.Float? || v.Null?) {
      k := 0;
      assert s[..0] == [];
    } else {
      BlankNotBlocked(s[1..]);
      var j := BlockedByLeaf(Child(v, s[0]), s[1..]);
      k := j + 1;
      LeafStep(v, s[0], s[1..][..j]);
      assert s[..k] == [s[0]] + s[1..][..j];
    }
  }

  lemma {:induction false} BlankNotBlocked(s: Path)
    ensures !Blocked(Blank, s)
    decreases |s|
  {
    if s != [] {
      BlankNotBlocked(s[1..]);
    }
  }

  /** Writing a scalar keeps the normal form, and so does any normal value that makes no list inside a list. */
  lemma {:induction false} PutNormal(v: Value, s: Path, x: Value)
    requires Normal(v) || NormalRoot(v)
    requires Normal(x) && (x.List? && s != [] ==> s[|s| - 1].Name?)
    requires GoodBelow(s)
    ensures Normal(Put(v, s, x))
    ensures s != [] && s[0].Name? ==> Put(v, s, x).Dict?
    decreases |s|
  {
    if s != [] {
      GoodTail(s);
      PutNormal(Child(v, s[0]), s[1..], x);
      AttachNormal(v, s[0], Put(Child(v, s[0]), s[1..], x));
    }
  }

  lemma AttachNormal(v: Value, a: Step, c: Value)
    requires (Normal(v) || NormalRoot(v)) && Normal(c)
    requires if a.Name? then GoodName(a.name) else !c.List?
    ensures Normal(Attach(v, a, c))
  {
    match a
    case Name(n) => assert n in Attach(v, a, c).m;
    case Idx(i) =>
  }

  // ----- slots of one list -----

  /** `t` is an earlier slot of a list that `s` leads into. */
  predicate SlotBefore(s: Path, t: Path)
    decreases |s|
  {
    s != [] && t != [] &&
    if s[0] == t[0] then SlotBefore(s[1..], t[1..])
    else |t| == 1 && s[0].Idx? && t[0].Idx? && t[0].i < s[0].i
  }

  /** `Put` pads exactly the missing slots in front of its own. */
  lemma {:induction false} PaddedIsSlot(v: Value, s: Path, t: Path)
    ensures Padded(v, s, t) <==> SlotBefore(s, t) && At(v, t).None?
    decreases |s|
  {
    if s != [] && t != [] {
      if s[0] == t[0] {
        PaddedIsSlot(Child(v, s[0]), s[1..], t[1..]);
        if !Has(v, s[0]) {
          NothingInBlank(t[1..]);
          SlotIsNotEmpty(s[1..], t[1..]);
        }
      } else if |t| == 1 {
        assert t[1..] == [];
      }
    }
  }

  lemma NothingInBlank(t: Path)
    ensures t != [] ==> At(Blank, t).None?
  {
  }

  lemma SlotIsNotEmpty(s: Path, t: Path)
    ensures SlotBefore(s, t) ==> t != []
  {
  }

  lemma {:induction false} SlotIsBeside(s: Path, t: Path)
    requires SlotBefore(s, t)
    ensures Apart(s, t) && PartAlike(s, t)
    decreases |s|
  {
    if s[0] == t[0] {
      SlotIsBeside(s[1..], t[1..]);
    }
  }

  /** A list that has a slot has the slots before it. */
  lemma {:induction false} SlotExists(v: Value, s: Path, t: Path)
    requires At(v, s).Some? && SlotBefore(s, t)
    ensures At(v, t).Some?
    decreases |s|
  {
    if s[0] == t[0] {
      SlotExists(Child(v, s[0]), s[1..], t[1..]);
    } else {
      assert t[1..] == [];
    }
  }

  /** Every node of a normal tree has a leaf at or under it, but an empty root has none. */
  lemma {:induction false} LeafUnder(v: Value, s: Path) returns (t: Path)
    requires (Normal(v) || NormalRoot(v)) && At(v, s).Some? && s != []
    ensures Leaf(v, t) && s <= t
    decreases |s|
  {
    var rest;
    if |s| == 1 {
      assert s[1..] == [];
      rest := SomeLeaf(Child(v, s[0]));
    } else {
      rest := LeafUnder(Child(v, s[0]), s[1..]);
    }
    t := [s[0]] + rest;
    LeafStep(v, s[0], rest);
    assert s == [s[0]] + s[1..];
  }

  lemma NodeAbove(v: Value, s: Path, t: Path)
    requires s <= t && At(v, t).Some?
    ensures At(v, s).Some? && At(At(v, s).value, t[|s|..]) == At(v, t)
  {
    assert t == s + t[|s|..];
    AtConcat(v, s, t[|s|..]);
  }

  lemma NothingBelow(v: Value, s: Path)
    requires Scalar(v) && s != []
    ensures At(v, s).None?
  {
  }

  /** No node lies below a leaf. */
  lemma LeafIsLast(v: Value, s: Path, t: Path)
    requires Leaf(v, s) && At(v, t).Some? && s <= t
    ensures s == t
  {
    NodeAbove(v, s, t);
    if s != t {
      NothingBelow(At(v, s).value, t[|s|..]);
    }
  }

  /** Two nodes of one tree that part do so alike. */
  lemma {:induction false} NodesPartAlike(v: Value, s: Path, t: Path)
    requires At(v, s).Some? && At(v, t).Some? && Apart(s, t)
    ensures PartAlike(s, t)
    decreases |s|
  {
    if s[0] == t[0] {
      NodesPartAlike(Child(v, s[0]), s[1..], t[1..]);
    }
  }

  lemma {:induction false} NumberBlocks(v: Value, s: Path, t: Path)
    requires At(v, s).Some? && At(v, s).value.Int? && s < t && t[|s|].Name?
    ensures Blocked(v, t)
    decreases |s|
  {
    if s != [] {
      assert s[0] == t[0] && s[1..] <= t[1..] && t[1..][|s[1..]|] == t[|s|];
      NumberBlocks(Child(v, s[0]), s[1..], t[1..]);
    }
  }

  /** Paths that part do so alike with all that lies below one of them. */
  lemma {:induction false} PartAlikeBelow(s: Path, t: Path, u: Path)
    requires Apart(s, t) && t <= u
    ensures Apart(s, u) && (PartAlike(s, t) <==> PartAlike(s, u))
    decreases |s|
  {
    if s[0] == t[0] {
      assert t[1..] <= u[1..];
      PartAlikeBelow(s[1..], t[1..], u[1..]);
    }
  }
}
