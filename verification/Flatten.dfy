/**
 Listing the leaf keys of a payload and searching them. Python's iteration order over a dict is left
 open: a method picks the entries of a dict in any order, and the slots of a list in order.
 */
module Flatten {
  import opened Wrappers
  import opened Text
  import opened Tree
  import opened Keys

  // ----- what get_keys reports -----

  /** `s` leads to a scalar that the listing reports: it never looks into a list inside a list. */
  predicate Flat(v: Value, s: Path)
    decreases |s|
  {
    s != [] && Has(v, s[0]) &&
    var c := Child(v, s[0]);
    if |s| == 1 then Scalar(c) else (c.Dict? || (c.List? && v.Dict?)) && Flat(c, s[1..])
  }

  lemma {:induction false} FlatIsLeaf(v: Value, s: Path)
    requires Normal(v) || NormalRoot(v)
    requires s != []
    ensures Flat(v, s) <==> Leaf(v, s)
    decreases |s|
  {
    if Has(v, s[0]) {
      LeafStep(v, s[0], s[1..]);
      assert s == [s[0]] + s[1..];
      if |s| > 1 {
        FlatIsLeaf(Child(v, s[0]), s[1..]);
      }
    }
  }

  /** In any tree the listing reports the strings and integers that no list directly in a list leads to. */
  lemma {:induction false} FlatExactly(v: Value, s: Path)
    ensures Flat(v, s) <==>
            && s != [] && At(v, s).Some? && (At(v, s).value.Str? || At(v, s).value.Int?)
            && forall k :: 0 < k < |s| ==> !(s[k - 1].Idx? && s[k].Idx?)
    decreases |s|
  {
    if s != [] && Has(v, s[0]) {
      var t := s[1..];
      FlatExactly(Child(v, s[0]), t);
      assert forall k :: 0 < k < |s| ==> s[k] == t[k - 1];
      assert forall k :: 0 < k < |t| ==> t[k - 1] == s[k] && t[k] == s[k + 1];
    }
  }

  function StepsIn(v: Value): set<Step> {
    match v
    case Dict(m) => set n | n in m :: Name(n)
    case List(l) => set i: nat | i < |l| :: Idx(i)
    case _ => {}
  }

  /** Where the paths part, both are in the same list and `s` is further down. */
  predicate IdxAfter(s: Path, t: Path) {
    s != [] && t != [] &&
    if s[0] == t[0] then IdxAfter(s[1..], t[1..]) else s[0].Idx? && t[0].Idx? && s[0].i > t[0].i
  }

  /** List slots are reported in increasing order. */
  predicate Ordered(ps: seq<Path>) {
    forall a, b :: 0 <= a < b < |ps| ==> !IdxAfter(ps[a], ps[b])
  }

  predicate NoDup<T(==)>(s: seq<T>) {
    forall a, b :: 0 <= a < b < |s| ==> s[a] != s[b]
  }

  /**
   `out` is `keys` followed by the keys, under `pkey`, of the paths `ps`; they are the leaves of `v`
   whose first step is in `steps`, in list order, and no leaf's key is missing.
   */
  ghost predicate Listed(v: Value, pkey: Option<string>, steps: set<Step>,
                         keys: seq<string>, out: seq<string>, ps: seq<Path>)
  {
    && |out| == |keys| + |ps| && out[..|keys|] == keys
    && (forall i :: 0 <= i < |ps| ==>
          Flat(v, ps[i]) && ps[i][0] in steps && out[|keys| + i] == PathText(pkey, ps[i]))
    && (forall s :: Flat(v, s) && s[0] in steps ==> PathText(pkey, s) in out)
    && Ordered(ps)
    && (NoDup(keys) ==> NoDup(out))
  }

  predicate NotBefore(a: Step, steps: set<Step>) {
    forall b :: b in steps ==> b != a && (a.Idx? && b.Idx? ==> b.i < a.i)
  }

  lemma ListedAdd(v: Value, pkey: Option<string>, steps: set<Step>, a: Step,
                  keys: seq<string>, mid: seq<string>, out: seq<string>, ps: seq<Path>, qs: seq<Path>)
    requires Listed(v, pkey, steps, keys, mid, ps)
    requires Listed(v, pkey, {a}, mid, out, qs)
    requires NotBefore(a, steps)
    ensures Listed(v, pkey, steps + {a}, keys, out, ps + qs)
  {
    assert out[..|keys|] == mid[..|keys|];
    forall i | 0 <= i < |ps + qs|
      ensures Flat(v, (ps + qs)[i]) && (ps + qs)[i][0] in steps + {a} && out[|keys| + i] == PathText(pkey, (ps + qs)[i])
    {
      if i < |ps| {
        assert out[|keys| + i] == out[..|mid|][|keys| + i];
      } else {
        assert out[|keys| + i] == out[|mid| + (i - |ps|)];
      }
    }
    forall s | Flat(v, s) && s[0] in steps + {a} ensures PathText(pkey, s) in out {
      if s[0] in steps {
        assert PathText(pkey, s) in out[..|mid|];
      }
    }
    OrderedConcat(v, steps, a, ps, qs);
  }

  lemma OrderedConcat(v: Value, steps: set<Step>, a: Step, ps: seq<Path>, qs: seq<Path>)
    requires Ordered(ps) && Ordered(qs) && NotBefore(a, steps)
    requires forall i :: 0 <= i < |ps| ==> ps[i] != [] && ps[i][0] in steps
    requires forall i :: 0 <= i < |qs| ==> qs[i] != [] && qs[i][0] == a
    ensures Ordered(ps + qs)
  {
    forall i, j | 0 <= i < j < |ps + qs| ensures !IdxAfter((ps + qs)[i], (ps + qs)[j]) {
      if j < |ps| {
        assert !IdxAfter(ps[i], ps[j]);
      } else if i < |ps| {
        assert ps[i][0] in steps && qs[j - |ps|][0] == a;
      } else {
        assert !IdxAfter(qs[i - |ps|], qs[j - |ps|]);
      }
    }
  }

  function Under(a: Step, ps: seq<Path>): (r: seq<Path>)
    ensures |r| == |ps| && forall i :: 0 <= i < |ps| ==> r[i] == [a] + ps[i]
  {
    seq(|ps|, i requires 0 <= i < |ps| => [a] + ps[i])
  }

  /** The prefix `get_keys` passes on when it descends along `a`. */
  function ChildKey(pkey: Option<string>, a: Step): Option<string> {
    if a.Idx? && (pkey.None? || pkey.value == "") then None else Some(ExtendText(pkey, a))
  }

  lemma ListedChild(v: Value, pkey: Option<string>, a: Step, keys: seq<string>, out: seq<string>, ps: seq<Path>)
    requires Has(v, a)
    requires Child(v, a).Dict? || (Child(v, a).List? && v.Dict?)
    requires Listed(Child(v, a), ChildKey(pkey, a), StepsIn(Child(v, a)), keys, out, ps)
    ensures Listed(v, pkey, {a}, keys, out, Under(a, ps))
  {
    var c := Child(v, a);
    var qs := Under(a, ps);
    forall i | 0 <= i < |qs|
      ensures Flat(v, qs[i]) && qs[i][0] in {a} && out[|keys| + i] == PathText(pkey, qs[i])
    {
      assert Flat(c, ps[i]);
      assert qs[i][1..] == ps[i];
    }
    forall s | Flat(v, s) && s[0] in {a} ensures PathText(pkey, s) in out {
      assert |s| > 1 && Flat(c, s[1..]);
      assert s[1..][0] in StepsIn(c) by {
        match s[1..][0]
        case Name(n) =>
        case Idx(i) =>
      }
    }
    forall i, j | 0 <= i < j < |qs| ensures !IdxAfter(qs[i], qs[j]) {
      assert qs[i][1..] == ps[i] && qs[j][1..] == ps[j];
      assert !IdxAfter(ps[i], ps[j]);
    }
  }

  // ----- get_keys -----

  /** One entry or slot of the listing's loop. */
  method CollectChild(keys: seq<string>, v: Value, a: Step, pkey: Option<string>)
    returns (out: seq<string>, ghost ps: seq<Path>)
    requires Has(v, a)
    ensures Listed(v, pkey, {a}, keys, out, ps)
    decreases v, 0
  {
    var c := Child(v, a);
    if c.Dict? || (c.List? && v.Dict?) {
      ghost var qs;
      out, qs := CollectKeys(keys, c, ChildKey(pkey, a));
      ListedChild(v, pkey, a, keys, out, qs);
      ps := Under(a, qs);
    } else {
      out, ps := keys, [];
      if Scalar(c) {
        var key := ExtendText(pkey, a);
        if key !in keys {
          out, ps := keys + [key], [[a]];
        }
        assert forall s :: Flat(v, s) && s[0] == a ==> s == [a];
        assert PathText(pkey, [a]) == key;
      }
    }
  }

  /** `_get_keys`: appends the keys of the leaves below `v` that are not in `keys` yet. */
  method CollectKeys(keys: seq<string>, v: Value, pkey: Option<string>)
    returns (out: seq<string>, ghost ps: seq<Path>)
    ensures Listed(v, pkey, StepsIn(v), keys, out, ps)
    decreases v, 1
  {
    out, ps := keys, [];
    ghost var done: set<Step> := {};
    match v
    case List(l) =>
      for i := 0 to |l|
        invariant done == set j: nat | j < i :: Idx(j)
        invariant Listed(v, pkey, done, keys, out, ps)
      {
        ghost var mid, before := out, ps;
        ghost var qs;
        out, qs := CollectChild(out, v, Idx(i), pkey);
        ListedAdd(v, pkey, done, Idx(i), keys, mid, out, before, qs);
        ps := ps + qs;
        done := done + {Idx(i)};
      }
      assert done == StepsIn(v);
    case Dict(m) =>
      var todo := m.Keys;
      while todo != {}
        invariant todo <= m.Keys
        invariant done == set n | n in m.Keys - todo :: Name(n)
        invariant Listed(v, pkey, done, keys, out, ps)
      {
        var n :| n in todo;
        ghost var mid, before := out, ps;
        ghost var qs;
        out, qs := CollectChild(out, v, Name(n), pkey);
        ListedAdd(v, pkey, done, Name(n), keys, mid, out, before, qs);
        ps := ps + qs;
        done := done + {Name(n)};
        todo := todo - {n};
      }
      assert done == StepsIn(v);
    case _ =>
  }

  /** `ps` are the leaves of `v`, each once, in list order. */
  ghost predicate Enumerates(v: Value, ps: seq<Path>) {
    (forall s :: s in ps <==> Leaf(v, s)) && NoDup(ps) && Ordered(ps)
  }

  function KeysOf(ps: seq<Path>): (r: seq<string>)
    requires forall i :: 0 <= i < |ps| ==> ps[i] != []
    ensures |r| == |ps| && forall i :: 0 <= i < |ps| ==> r[i] == KeyOf(ps[i])
  {
    seq(|ps|, i requires 0 <= i < |ps| => KeyOf(ps[i]))
  }

  /** `get_keys` of a normal tree lists the key of every leaf exactly once, in list order. */
  method GetKeys(root: Value) returns (keys: seq<string>, ghost ps: seq<Path>)
    requires root.Dict?
    ensures NoDup(keys)
    ensures forall s :: Flat(root, s) ==> KeyOf(s) in keys
    ensures forall k :: k in keys ==> exists s :: Flat(root, s) && KeyOf(s) == k
    ensures forall i :: 0 <= i < |ps| ==> ps[i] != []
    ensures keys == KeysOf(ps)
    ensures NormalRoot(root) ==> Enumerates(root, ps)
  {
    keys, ps := CollectKeys([], root, None);
    assert forall s :: Flat(root, s) ==> s[0] in StepsIn(root);
    assert keys == KeysOf(ps);
    if NormalRoot(root) {
      forall s ensures s in ps <==> Leaf(root, s) {
        if s in ps {
          FlatIsLeaf(root, s);
        } else if Leaf(root, s) {
          LeafIsListed(root, ps, s);
        }
      }
      DistinctKeys(ps);
    }
  }

  lemma LeafIsListed(root: Value, ps: seq<Path>, s: Path)
    requires NormalRoot(root) && Leaf(root, s)
    requires forall i :: 0 <= i < |ps| ==> ps[i] != [] && Flat(root, ps[i])
    requires s != [] && Flat(root, s) ==> KeyOf(s) in KeysOf(ps)
    ensures s in ps
  {
    LeavesAreGood(root, s);
    FlatIsLeaf(root, s);
    var i :| 0 <= i < |ps| && KeysOf(ps)[i] == KeyOf(s);
    FlatIsLeaf(root, ps[i]);
    LeavesAreGood(root, ps[i]);
    KeysDistinct(s, ps[i]);
  }

  lemma DistinctKeys(ps: seq<Path>)
    requires forall i :: 0 <= i < |ps| ==> ps[i] != []
    requires NoDup(KeysOf(ps))
    ensures NoDup(ps)
  {
    forall i, j | 0 <= i < j < |ps| ensures ps[i] != ps[j] {
      assert KeysOf(ps)[i] != KeysOf(ps)[j];
    }
  }

  // ----- search -----

  /** The name a printed key ends in, given the name its prefix ends in. */
  function LastName(base: string, s: Path): string
    decreases |s|
  {
    if s == [] then base else LastName(if s[0].Name? then s[0].name else base, s[1..])
  }

  /** `key.split('>')[-1]` */
  function LastSegment(key: string): string
    decreases |key|
  {
    var (first, rest) := Cut(key);
    if rest.None? then first else LastSegment(rest.value)
  }

  lemma {:induction false} LastSegmentOf(a: string, n: string)
    requires '>' !in n
    ensures LastSegment(n) == n && LastSegment(a + ">" + n) == n
    decreases |a|
  {
    CutAfter(n, "");
    CutJoin(a, n);
    if Cut(a).1.Some? {
      LastSegmentOf(Cut(a).1.value, n);
    }
  }

  lemma {:induction false} CutJoin(a: string, n: string)
    ensures Cut(a + ">" + n) == (Cut(a).0, Some(if Cut(a).1.None? then n else Cut(a).1.value + ">" + n))
  {
    if a == "" {
      assert (a + ">" + n)[1..] == n;
    } else if a[0] == '>' {
      assert (a + ">" + n)[1..] == a[1..] + ">" + n;
    } else {
      assert (a + ">" + n)[1..] == a[1..] + ">" + n;
      CutJoin(a[1..], n);
    }
  }

  /** The last segment of a printed key, one step further down. */
  function SegmentAfter(segment: string, a: Step): string {
    match a
    case Name(n) => n
    case Idx(i) => segment + ("[" + NatText(i) + "]")
  }

  /** Some node on the way along `s`, from one whose last segment is `segment`, or a dict entry at its end, is printed
      with the last segment `name`. */
  predicate UnderName(segment: string, name: string, s: Path)
    decreases |s|
  {
    s != [] &&
    (segment == name ||
     if |s| == 1 then s[0] == Name(name) else UnderName(SegmentAfter(segment, s[0]), name, s[1..]))
  }

  /** A leaf below `v` with the searched name and value; without a value, one under a node with that name. */
  predicate Hit(v: Value, base: string, segment: string, name: string, val: Value, s: Path) {
    Flat(v, s) &&
    if val == Null then UnderName(segment, name, s) else LastName(base, s) == name && At(v, s) == Some(val)
  }

  lemma {:induction false} LastSegmentAppend(a: string, t: string)
    requires '>' !in t
    ensures LastSegment(a + t) == LastSegment(a) + t
    decreases |a|
  {
    CutAppend(a, t);
    if Cut(a).1.Some? {
      LastSegmentAppend(Cut(a).1.value, t);
    }
  }

  lemma {:induction false} CutAppend(a: string, t: string)
    requires '>' !in t
    ensures Cut(a).1.None? ==> Cut(a).0 == a
    ensures Cut(a + t) == if Cut(a).1.None? then (a + t, None) else (Cut(a).0, Some(Cut(a).1.value + t))
  {
    if a == "" {
      assert a + t == t;
      CutAfter(t, "");
    } else {
      assert (a + t)[1..] == a[1..] + t;
      if a[0] != '>' {
        CutAppend(a[1..], t);
        assert [a[0]] + (a[1..] + t) == a + t && [a[0]] + a[1..] == a;
      }
    }
  }

  lemma SegmentOfChild(prefix: string, a: Step)
    requires a.Name? ==> '>' !in a.name
    ensures LastSegment(ExtendText(Some(prefix), a)) == SegmentAfter(LastSegment(prefix), a)
  {
    match a
    case Name(n) => LastSegmentOf(prefix, n);
    case Idx(i) =>
      assert '>' !in NatText(i);
      LastSegmentAppend(prefix, "[" + NatText(i) + "]");
      assert prefix + "[" + NatText(i) + "]" == prefix + ("[" + NatText(i) + "]");
  }

  /** `out` are the keys of the hits whose first step is in `steps`, each hit once. */
  ghost predicate Found(v: Value, base: string, name: string, val: Value, prefix: string, steps: set<Step>,
                        out: seq<string>, ps: seq<Path>)
  {
    && |out| == |ps| && NoDup(ps)
    && (forall i :: 0 <= i < |ps| ==> ps[i] != [] && ps[i][0] in steps && out[i] == PathText(Some(prefix), ps[i]))
    && (forall s :: s in ps <==> Hit(v, base, LastSegment(prefix), name, val, s) && s[0] in steps)
  }

  lemma FoundAdd(v: Value, base: string, name: string, val: Value, prefix: string, steps: set<Step>, a: Step,
                 out: seq<string>, more: seq<string>, ps: seq<Path>, qs: seq<Path>)
    requires Found(v, base, name, val, prefix, steps, out, ps)
    requires Found(v, base, name, val, prefix, {a}, more, qs)
    requires a !in steps
    ensures Found(v, base, name, val, prefix, steps + {a}, out + more, ps + qs)
  {
    forall i, j | 0 <= i < j < |ps + qs| ensures (ps + qs)[i] != (ps + qs)[j] {
      if i < |ps| <= j {
        assert ps[i][0] in steps && qs[j - |ps|][0] == a;
      }
    }
  }

  lemma HitBelow(v: Value, base: string, segment: string, name: string, val: Value, a: Step, t: Path)
    requires Has(v, a)
    requires Child(v, a).Dict? || (Child(v, a).List? && v.Dict?)
    requires val == Null ==> segment != name
    ensures Hit(v, base, segment, name, val, [a] + t) <==>
            Hit(Child(v, a), if a.Name? then a.name else base, SegmentAfter(segment, a), name, val, t)
    ensures Flat(Child(v, a), t) ==> t[0] in StepsIn(Child(v, a))
  {
    assert ([a] + t)[1..] == t;
  }

  lemma FoundChild(v: Value, base: string, name: string, val: Value, prefix: string, a: Step,
                   out: seq<string>, ps: seq<Path>)
    requires Has(v, a) && (a.Name? ==> '>' !in a.name)
    requires Child(v, a).Dict? || (Child(v, a).List? && v.Dict?)
    requires Found(Child(v, a), if a.Name? then a.name else base, name, val, ExtendText(Some(prefix), a),
                   StepsIn(Child(v, a)), out, ps)
    requires prefix != "" && (val == Null ==> LastSegment(prefix) != name)
    ensures Found(v, base, name, val, prefix, {a}, out, Under(a, ps))
  {
    var qs := Under(a, ps);
    UnderDistinct(a, ps);
    forall i | 0 <= i < |ps| ensures out[i] == PathText(Some(prefix), qs[i]) {
      assert qs[i][1..] == ps[i];
    }
    forall s ensures s in qs <==> Hit(v, base, LastSegment(prefix), name, val, s) && s[0] in {a} {
      UnderIn(a, ps, s);
      if s != [] && s[0] == a {
        assert s == [a] + s[1..];
        HitOfChild(v, base, name, val, prefix, a, s[1..]);
      }
    }
  }

  lemma HitOfChild(v: Value, base: string, name: string, val: Value, prefix: string, a: Step, t: Path)
    requires Has(v, a) && (a.Name? ==> '>' !in a.name)
    requires Child(v, a).Dict? || (Child(v, a).List? && v.Dict?)
    requires val == Null ==> LastSegment(prefix) != name
    ensures var inner := if a.Name? then a.name else base;
      Hit(v, base, LastSegment(prefix), name, val, [a] + t) <==>
      Hit(Child(v, a), inner, LastSegment(ExtendText(Some(prefix), a)), name, val, t) && t[0] in StepsIn(Child(v, a))
  {
    SegmentOfChild(prefix, a);
    HitBelow(v, base, LastSegment(prefix), name, val, a, t);
  }

  // The listing below a node whose own name is searched for.

  lemma {:induction false} PrefixSwap(p: string, q: string, s: Path)
    requires p != "" && q != "" && s != []
    ensures p <= PathText(Some(p), s) && PathText(Some(q), s) == q + PathText(Some(p), s)[|p|..]
    decreases |s|
  {
    var more := if s[0].Name? then ">" + s[0].name else "[" + NatText(s[0].i) + "]";
    ExtendByMore(p, s[0], more);
    ExtendByMore(q, s[0], more);
    if |s| > 1 {
      PrefixSwap(p + more, q + more, s[1..]);
      DropPrefix(p, q, more, PathText(Some(p + more), s[1..]));
    }
  }

  lemma ExtendByMore(p: string, a: Step, more: string)
    requires more == if a.Name? then ">" + a.name else "[" + NatText(a.i) + "]"
    ensures ExtendText(Some(p), a) == p + more
  {
    match a
    case Name(n) => ConcatAssociates(p, ">", n);
    case Idx(i) =>
      ConcatAssociates(p, "[", NatText(i));
      ConcatAssociates(p, "[" + NatText(i), "]");
  }

  lemma DropPrefix(p: string, q: string, more: string, text: string)
    requires p + more <= text
    ensures p <= text && q + more + text[|p + more|..] == q + text[|p|..]
  {
    assert text[..|p|] == (p + more)[..|p|] == p;
    assert text[|p|..] == more + text[|p + more|..];
    ConcatAssociates(q, more, text[|p + more|..]);
  }

  lemma PathTextsDistinct(v: Value, p: string, s: Path, t: Path)
    requires Normal(v) && Leaf(v, s) && Leaf(v, t) && s != [] && t != [] && p != ""
    requires PathText(Some(p), s) == PathText(Some(p), t)
    ensures s == t
  {
    var root := [Name("x")];
    PrefixSwap(p, "x", s);
    PrefixSwap(p, "x", t);
    PathTextCons(None, Name("x"), s);
    PathTextCons(None, Name("x"), t);
    BelowNamed(v, s);
    BelowNamed(v, t);
    KeysDistinct(root + s, root + t);
    assert (root + s)[1..] == s && (root + t)[1..] == t;
  }

  lemma BelowNamed(v: Value, s: Path)
    requires Normal(v) && Leaf(v, s)
    ensures GoodSteps([Name("x")] + s)
  {
    LeafShape(v, s);
    var t := [Name("x")] + s;
    assert "x"[0] == 'x' && GoodName("x") && t[1..] == s;
    GoodTail(t);
  }

  lemma NothingListed(v: Value, pkey: Option<string>, keys: seq<string>, out: seq<string>, ps: seq<Path>)
    requires Listed(v, pkey, StepsIn(v), keys, out, ps)
    ensures !Container(v) ==> out == keys
  {
    assert |ps| > 0 ==> ps[0] != [] && ps[0][0] in StepsIn(v);
    if !Container(v) {
      assert out == out[..|keys|];
    }
  }

  /** Every leaf is listed once. */
  lemma ListedIsFound(v: Value, base: string, name: string, prefix: string, out: seq<string>, ps: seq<Path>)
    requires Normal(v) && prefix != "" && LastSegment(prefix) == name
    requires Listed(v, Some(prefix), StepsIn(v), [], out, ps)
    ensures Found(v, base, name, Null, prefix, StepsIn(v), out, ps)
  {
    forall s ensures s in ps <==> Hit(v, base, name, name, Null, s) && s[0] in StepsIn(v) {
      if Flat(v, s) && s[0] in StepsIn(v) {
        var i :| 0 <= i < |out| && out[i] == PathText(Some(prefix), s);
        FlatIsLeaf(v, s);
        FlatIsLeaf(v, ps[i]);
        PathTextsDistinct(v, prefix, s, ps[i]);
      }
    }
    forall i, j | 0 <= i < j < |ps| ensures ps[i] != ps[j] {
      assert out[i] != out[j];
    }
  }

  lemma UnderDistinct(a: Step, ps: seq<Path>)
    requires NoDup(ps)
    ensures NoDup(Under(a, ps))
  {
    forall i, j | 0 <= i < j < |ps| ensures Under(a, ps)[i] != Under(a, ps)[j] {
      assert Under(a, ps)[i][1..] == ps[i] && Under(a, ps)[j][1..] == ps[j];
    }
  }

  lemma UnderIn(a: Step, ps: seq<Path>, s: Path)
    ensures s in Under(a, ps) <==> s != [] && s[0] == a && s[1..] in ps
  {
    if s in Under(a, ps) {
      var i :| 0 <= i < |ps| && Under(a, ps)[i] == s;
      assert s[1..] == ps[i];
    }
    if s != [] && s[0] == a && s[1..] in ps {
      var i :| 0 <= i < |ps| && ps[i] == s[1..];
      assert Under(a, ps)[i] == s;
    }
  }

  /** When the search is specified: a normal tree, and `base` the last name in `prefix`. */
  predicate Searchable(v: Value, prefix: string, base: string) {
    Normal(v) && prefix != "" && (v.List? ==> LastSegment(prefix) == base)
  }

  /** One entry or slot of the search loop. `key` is the name the loop compares. */
  method SearchChild(v: Value, a: Step, searchKey: string, searchVal: Value, prefix: string, key: string,
                     ghost base: string)
    returns (out: seq<string>, ghost ps: seq<Path>)
    requires Has(v, a) && (a.Name? ==> key == a.name) && (a.Idx? ==> key == LastSegment(prefix))
    requires searchVal == Null ==> LastSegment(prefix) != searchKey
    ensures Searchable(v, prefix, base) ==> Found(v, base, searchKey, searchVal, prefix, {a}, out, ps)
    decreases v, 0
  {
    var c := Child(v, a);
    out, ps := [], [];
    if Scalar(c) {
      if key == searchKey && (searchVal == c || searchVal == Null) {
        out, ps := [ExtendText(Some(prefix), a)], [[a]];
      }
      assert forall s :: Flat(v, s) && s[0] == a ==> s == [a];
      assert At(v, [a]) == Some(c);
      assert LastName(base, [a]) == if a.Name? then a.name else base;
      assert UnderName(LastSegment(prefix), searchKey, [a]) <==>
             LastSegment(prefix) == searchKey || a == Name(searchKey);
    } else if c.Dict? || (c.List? && v.Dict?) {
      ghost var inner := if a.Name? then a.name else base;
      ghost var qs;
      out, qs := Search(c, searchKey, searchVal, ExtendText(Some(prefix), a), inner);
      if Searchable(v, prefix, base) {
        if a.Name? {
          LastSegmentOf(prefix, a.name);
        }
        FoundChild(v, base, searchKey, searchVal, prefix, a, out, qs);
      }
      ps := Under(a, qs);
    }
  }

  /** `_search`: the keys below a node, printed after `prefix`. Without a value, a node whose own name
      is searched for reports all its keys. */
  method Search(v: Value, searchKey: string, searchVal: Value, prefix: string, ghost base: string)
    returns (out: seq<string>, ghost ps: seq<Path>)
    ensures Searchable(v, prefix, base) ==>
      Found(v, base, searchKey, searchVal, prefix, StepsIn(v), out, ps)
    ensures !Container(v) ==> out == []
    decreases v, 1
  {
    out, ps := [], [];
    var key := LastSegment(prefix);
    if searchVal == Null && key == searchKey {
      out, ps := CollectKeys([], v, Some(prefix));
      NothingListed(v, Some(prefix), [], out, ps);
      if Searchable(v, prefix, base) {
        ListedIsFound(v, base, searchKey, prefix, out, ps);
      }
      return;
    }
    ghost var done: set<Step> := {};
    match v
    case List(l) =>
      for i := 0 to |l|
        invariant done == set j: nat | j < i :: Idx(j)
        invariant Searchable(v, prefix, base) ==> Found(v, base, searchKey, searchVal, prefix, done, out, ps)
      {
        var more;
        ghost var qs;
        more, qs := SearchChild(v, Idx(i), searchKey, searchVal, prefix, key, base);
        if Searchable(v, prefix, base) {
          FoundAdd(v, base, searchKey, searchVal, prefix, done, Idx(i), out, more, ps, qs);
        }
        out, ps := out + more, ps + qs;
        done := done + {Idx(i)};
      }
      assert done == StepsIn(v);
    case Dict(m) =>
      var todo := m.Keys;
      while todo != {}
        invariant todo <= m.Keys
        invariant done == set n | n in m.Keys - todo :: Name(n)
        invariant Searchable(v, prefix, base) ==> Found(v, base, searchKey, searchVal, prefix, done, out, ps)
      {
        var n :| n in todo;
        var more;
        ghost var qs;
        more, qs := SearchChild(v, Name(n), searchKey, searchVal, prefix, n, base);
        if Searchable(v, prefix, base) {
          FoundAdd(v, base, searchKey, searchVal, prefix, done, Name(n), out, more, ps, qs);
        }
        out, ps := out + more, ps + qs;
        done := done + {Name(n)};
        todo := todo - {n};
      }
      assert done == StepsIn(v);
    case _ =>
  }
}
