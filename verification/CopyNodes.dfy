/**
 `copy` with a caller's own list of keys, each of which may lead to any node of the source: what is under a
 requested key is replaced by what the source has there.
 */
module CopyNodes {
  import opened Wrappers
  import opened Tree
  import opened Keys
  import opened Access
  import opened Flatten
  import opened Payload
  import opened Transfer

  /** A request leads to `t` or to a node above it. */
  ghost predicate Covered(qs: seq<Path>, t: Path) {
    exists n :: 0 <= n < |qs| && qs[n] <= t
  }

  /** The leaf map after copying the nodes `qs`. */
  ghost function NodeLeaf(d: Value, src: Value, qs: seq<Path>, t: Path): Option<Value> {
    if Covered(qs, t) then LeafAt(src, t) else LeafAt(d, t)
  }

  ghost predicate Copied(d: Value, src: Value, qs: seq<Path>, r: Value) {
    NormalRoot(r) && forall t :: LeafAt(r, t) == NodeLeaf(d, src, qs, t)
  }

  ghost predicate AllNodes(src: Value, qs: seq<Path>) {
    forall n :: 0 <= n < |qs| ==> qs[n] != [] && At(src, qs[n]).Some?
  }

  /** No request leads through the leaf `t`, or asks for a dict where `t` asks for a list, or the other way round. */
  ghost predicate Spared(qs: seq<Path>, t: Path) {
    forall n :: 0 <= n < |qs| ==> Apart(t, qs[n]) && PartAlike(t, qs[n])
  }

  // ----- when it works -----

  /** Every leaf of the destination is replaced or spared. */
  ghost predicate NodesFit(d: Value, qs: seq<Path>) {
    forall t :: Leaf(d, t) && !Covered(qs, t) ==> Spared(qs, t)
  }

  /** The slot `u` need not be padded, or something is written over the padding. */
  ghost predicate Filled(d: Value, qs: seq<Path>, u: Path) {
    (exists t :: Leaf(d, t) && u <= t) || Covered(qs, u) || (exists n :: 0 <= n < |qs| && u <= qs[n])
  }

  ghost predicate NoGaps(d: Value, qs: seq<Path>) {
    forall m, u :: 0 <= m < |qs| && SlotBefore(qs[m], u) ==> Filled(d, qs, u)
  }

  /** A number of the destination stands where request `m` wants a dict, and no earlier request replaces it. */
  ghost predicate NumberInTheWay(d: Value, qs: seq<Path>, m: nat, s: Path)
    requires m < |qs|
  {
    Leaf(d, s) && At(d, s).value.Int? && s < qs[m] && qs[m][|s|].Name? && !Covered(qs[..m], s)
  }

  ghost predicate ClearWay(d: Value, qs: seq<Path>) {
    forall m, s :: 0 <= m < |qs| ==> !NumberInTheWay(d, qs, m, s)
  }

  // ----- what every pass of the loop keeps -----

  ghost predicate SparedKept(d: Value, ps: seq<Path>, a: Value) {
    forall t :: Leaf(d, t) && Spared(ps, t) ==> LeafAt(a, t) == LeafAt(d, t)
  }

  ghost predicate NodesPresent(src: Value, ps: seq<Path>, a: Value) {
    forall n :: 0 <= n < |ps| ==> At(a, ps[n]) == At(src, ps[n])
  }

  ghost predicate PadOf(ps: seq<Path>, t: Path) {
    exists m :: 0 <= m < |ps| && SlotBefore(ps[m], t)
  }

  ghost predicate NodesExplained(d: Value, ps: seq<Path>, a: Value) {
    forall t :: Leaf(a, t) ==>
      Covered(ps, t) || LeafAt(a, t) == LeafAt(d, t) || (LeafAt(a, t) == Some(Blank) && PadOf(ps, t))
  }

  ghost predicate CopyInv(d: Value, src: Value, ps: seq<Path>, a: Value) {
    NormalRoot(a) && SparedKept(d, ps, a) && NodesPresent(src, ps, a) && NodesExplained(d, ps, a)
  }

  /** The nodes of a normal tree have keys, and can be written elsewhere without losing the normal form. */
  lemma NodeIsGood(src: Value, q: Path)
    requires NormalRoot(src) && At(src, q).Some? && q != []
    ensures GoodSteps(q) && Normal(At(src, q).value) && (At(src, q).value.List? ==> q[|q| - 1].Name?)
  {
    var t := LeafUnder(src, q);
    LeavesAreGood(src, t);
    NormalAt(src, q);
    assert forall k :: 0 <= k < |q| ==> q[k] == t[k];
  }

  lemma NodeStep(d: Value, src: Value, ps: seq<Path>, p: Path, a: Value)
    requires NormalRoot(src) && AllNodes(src, ps) && p != [] && At(src, p).Some?
    requires CopyInv(d, src, ps, a)
    ensures CopyInv(d, src, ps + [p], Put(a, p, At(src, p).value))
  {
    var x := At(src, p).value;
    NodeIsGood(src, p);
    PutNormal(a, p, x);
    KeptStep(d, src, ps, p, a, x);
    PresentStep(src, ps, p, a, x);
    ExplainedStep(d, ps, p, a, x);
  }

  lemma KeptStep(d: Value, src: Value, ps: seq<Path>, p: Path, a: Value, x: Value)
    requires SparedKept(d, ps, a)
    ensures SparedKept(d, ps + [p], Put(a, p, x))
  {
    var qs := ps + [p];
    forall t | Leaf(d, t) && Spared(qs, t) ensures LeafAt(Put(a, p, x), t) == LeafAt(d, t) {
      assert forall n :: 0 <= n < |ps| ==> ps[n] == qs[n];
      assert qs[|ps|] == p;
      assert Spared(ps, t);
      ApartSymmetric(t, p);
      PutFrame(a, p, x, t);
    }
  }

  lemma PresentStep(src: Value, ps: seq<Path>, p: Path, a: Value, x: Value)
    requires AllNodes(src, ps) && At(src, p) == Some(x) && NodesPresent(src, ps, a)
    ensures NodesPresent(src, ps + [p], Put(a, p, x))
  {
    var qs := ps + [p];
    PutThenAt(a, p, x);
    forall n | 0 <= n < |ps| ensures At(Put(a, p, x), qs[n]) == At(src, qs[n]) {
      assert qs[n] == ps[n];
      NodeStays(src, ps[n], p, a, x);
    }
  }

  /** Writing one node of the source leaves another that is there already as it is. */
  lemma NodeStays(src: Value, q: Path, p: Path, a: Value, x: Value)
    requires At(src, q).Some? && At(src, p) == Some(x) && At(a, q) == At(src, q)
    ensures At(Put(a, p, x), q) == At(src, q)
  {
    ApartIsUnrelated(p, q);
    if q <= p {
      NodeAbove(src, q, p);
      assert p == q + p[|q|..];
      AtConcat(a, q, p[|q|..]);
      PutSame(a, p);
    } else if p <= q {
      PutThenAt(a, p, x);
      assert q == p + q[|p|..];
      AtConcat(src, p, q[|p|..]);
      AtConcat(Put(a, p, x), p, q[|p|..]);
    } else {
      PutFrame(a, p, x, q);
      NodesPartAlike(src, p, q);
    }
  }

  lemma ExplainedStep(d: Value, ps: seq<Path>, p: Path, a: Value, x: Value)
    requires NodesExplained(d, ps, a)
    ensures NodesExplained(d, ps + [p], Put(a, p, x))
  {
    var r, qs := Put(a, p, x), ps + [p];
    PutThenAt(a, p, x);
    assert qs[|ps|] == p && forall n :: 0 <= n < |ps| ==> qs[n] == ps[n];
    forall t | Leaf(r, t)
      ensures Covered(qs, t) || LeafAt(r, t) == LeafAt(d, t) || (LeafAt(r, t) == Some(Blank) && PadOf(qs, t))
    {
      ApartIsUnrelated(p, t);
      if Apart(p, t) {
        PutFrame(a, p, x, t);
        PaddedIsSlot(a, p, t);
      } else if t <= p {
        LeafIsLast(r, t, p);
      }
    }
  }

  // ----- the loop -----

  ghost predicate CopiesWell(d: Entries, src: Entries, qs: seq<Path>)
    requires forall n :: 0 <= n < |qs| ==> qs[n] != []
  {
    var (r, err) := Carry(d, src, KeysOf(qs), false);
    err == None && CopyInv(Dict(d), Dict(src), qs, Dict(r))
  }

  /** One more key: either it is written, or a number is in the way. */
  lemma CopyOne(d: Entries, src: Entries, ps: seq<Path>, p: Path)
    requires NormalRoot(Dict(src)) && AllNodes(Dict(src), ps) && p != [] && At(Dict(src), p).Some?
    requires CopiesWell(d, src, ps)
    ensures var a := Carry(d, src, KeysOf(ps), false).0;
      if Blocked(Dict(a), p) then Carry(d, src, KeysOf(ps + [p]), false) == (a, Some(AttributeFault))
      else CopiesWell(d, src, ps + [p])
  {
    var a := Carry(d, src, KeysOf(ps), false).0;
    var x := At(Dict(src), p).value;
    NodeIsGood(Dict(src), p);
    CarrySnoc(d, src, ps, p, false);
    ReadIsAt(src, p);
    SetKeyIsPut(a, p, x);
    NodeStep(Dict(d), Dict(src), ps, p, Dict(a));
  }

  /** A number in the way of a request is one of the destination that no earlier request replaced, and raises. */
  lemma BlockedByNumber(d: Value, src: Value, qs: seq<Path>, m: nat, a: Value)
    requires NormalRoot(src) && AllNodes(src, qs) && m < |qs| && CopyInv(d, src, qs[..m], a)
    ensures Blocked(a, qs[m]) ==> exists s :: NumberInTheWay(d, qs, m, s) && LeafAt(a, s) == LeafAt(d, s)
  {
    var q, ps := qs[m], qs[..m];
    if Blocked(a, q) {
      var k := BlockedByLeaf(a, q);
      var s := q[..k];
      if Covered(ps, s) {
        CoveredIsSource(src, ps, a, s);
        LeafIsLast(src, s, q);
      }
      assert NumberInTheWay(d, qs, m, s);
    }
  }

  lemma CoveredIsSource(src: Value, ps: seq<Path>, a: Value, t: Path)
    requires AllNodes(src, ps) && NodesPresent(src, ps, a) && Covered(ps, t)
    ensures LeafAt(a, t) == LeafAt(src, t)
  {
    var n :| 0 <= n < |ps| && ps[n] <= t;
    assert t == ps[n] + t[|ps[n]|..];
    AtConcat(src, ps[n], t[|ps[n]|..]);
    AtConcat(a, ps[n], t[|ps[n]|..]);
  }

  /** The first number in the way has not been touched by the earlier requests. */
  lemma NumberIsSpared(d: Value, src: Value, qs: seq<Path>, m: nat, s: Path)
    requires AllNodes(src, qs) && m < |qs| && NumberInTheWay(d, qs, m, s) && ClearWay(d, qs[..m])
    ensures Spared(qs[..m], s)
  {
    var ps := qs[..m];
    forall n | 0 <= n < m ensures Apart(s, ps[n]) && PartAlike(s, ps[n]) {
      var q := qs[n];
      assert ps[n] == q && ps[..n] == qs[..n];
      if s < q {
        NotThrough(d, src, qs, m, n, s);
      }
      ApartIsUnrelated(s, q);
      ApartSymmetric(s, q);
      PartAlikeBelow(q, s, qs[m]);
      NodesPartAlike(src, q, qs[m]);
    }
  }

  lemma CoveredEarlier(ps: seq<Path>, n: nat, s: Path)
    requires n <= |ps|
    ensures Covered(ps[..n], s) ==> Covered(ps, s)
  {
    if Covered(ps[..n], s) {
      var i :| 0 <= i < n && ps[..n][i] <= s;
      assert ps[i] <= s;
    }
  }

  /** Two requests that lead through the same number ask it for the same thing. */
  lemma NotThrough(d: Value, src: Value, qs: seq<Path>, m: nat, n: nat, s: Path)
    requires AllNodes(src, qs) && n < m < |qs| && NumberInTheWay(d, qs, m, s) && s < qs[n]
    ensures NumberInTheWay(d, qs[..m], n, s)
  {
    var q, p, ps := qs[n], qs[m], qs[..m];
    assert ps[n] == q && ps[..n] == qs[..n];
    NodeAbove(src, s, q);
    NodeAbove(src, s, p);
    var at := At(src, s).value;
    assert q[|s|..][0] == q[|s|] && p[|s|..][0] == p[|s|];
    assert Has(at, q[|s|]) && Has(at, p[|s|]);
    CoveredEarlier(ps, n, s);
  }

  // ----- the whole copy -----

  lemma CopyStuck(d: Entries, src: Entries, ps: seq<Path>, p: Path)
    requires p != [] && forall n :: 0 <= n < |ps| ==> ps[n] != []
    requires Carry(d, src, KeysOf(ps), false).1.Some?
    ensures Carry(d, src, KeysOf(ps + [p]), false) == Carry(d, src, KeysOf(ps), false)
  {
    var keys := KeysOf(ps + [p]);
    assert keys[..|keys| - 1] == KeysOf(ps);
  }

  /** The copy raised, and a number that was in the way is still there. */
  ghost predicate Stopped(d: Value, qs: seq<Path>, r: Value) {
    exists m, s :: 0 <= m < |qs| && NumberInTheWay(d, qs, m, s) && LeafAt(r, s) == LeafAt(d, s)
  }

  lemma LongerWay(d: Value, ps: seq<Path>, p: Path, r: Value)
    ensures Stopped(d, ps, r) ==> Stopped(d, ps + [p], r)
    ensures ClearWay(d, ps + [p]) ==> ClearWay(d, ps)
  {
    var qs := ps + [p];
    forall m, s | 0 <= m < |ps| ensures NumberInTheWay(d, ps, m, s) == NumberInTheWay(d, qs, m, s) {
      assert qs[m] == ps[m] && qs[..m] == ps[..m];
    }
  }

  lemma CopyStep(d: Entries, src: Entries, ps: seq<Path>, p: Path)
    requires NormalRoot(Dict(src)) && AllNodes(Dict(src), ps + [p]) && AllNodes(Dict(src), ps)
    requires p != [] && At(Dict(src), p).Some?
    requires CopiesWell(d, src, ps) && ClearWay(Dict(d), ps)
    ensures var qs := ps + [p];
      var (r, err) := Carry(d, src, KeysOf(qs), false);
      if ClearWay(Dict(d), qs) then CopiesWell(d, src, qs) else err.Some? && Stopped(Dict(d), qs, Dict(r))
  {
    var a := Dict(Carry(d, src, KeysOf(ps), false).0);
    var qs, m := ps + [p], |ps|;
    assert qs[..m] == ps && qs[m] == p;
    CopyOne(d, src, ps, p);
    BlockedByNumber(Dict(d), Dict(src), qs, m, a);
    LongerWay(Dict(d), ps, p, a);
    if s :| NumberInTheWay(Dict(d), qs, m, s) {
      NumberIsSpared(Dict(d), Dict(src), qs, m, s);
      NumberBlocks(a, s, p);
    } else {
      ClearOneMore(Dict(d), ps, p);
    }
  }

  lemma ClearOneMore(d: Value, ps: seq<Path>, p: Path)
    requires ClearWay(d, ps) && forall s :: !NumberInTheWay(d, ps + [p], |ps|, s)
    ensures ClearWay(d, ps + [p])
  {
    var qs := ps + [p];
    forall n, s | 0 <= n < |qs| ensures !NumberInTheWay(d, qs, n, s) {
      if n < |ps| {
        assert qs[n] == ps[n] && qs[..n] == ps[..n];
        assert !NumberInTheWay(d, ps, n, s);
      }
    }
  }

  /** Copying raises exactly when a number is in the way; otherwise the destination becomes what is specified. */
  lemma {:induction false} CopyRuns(d: Entries, src: Entries, qs: seq<Path>)
    requires NormalRoot(Dict(d)) && NormalRoot(Dict(src)) && AllNodes(Dict(src), qs)
    ensures var (r, err) := Carry(d, src, KeysOf(qs), false);
      if ClearWay(Dict(d), qs) then CopiesWell(d, src, qs) else err.Some? && Stopped(Dict(d), qs, Dict(r))
    decreases |qs|
  {
    if qs != [] {
      var ps, p := qs[..|qs| - 1], qs[|qs| - 1];
      assert qs == ps + [p];
      CopyRuns(d, src, ps);
      if ClearWay(Dict(d), ps) {
        CopyStep(d, src, ps, p);
      } else {
        CopyStuck(d, src, ps, p);
        LongerWay(Dict(d), ps, p, Dict(Carry(d, src, KeysOf(ps), false).0));
      }
    }
  }

  /**
   Copying any nodes of the source, in any order, replaces exactly what is under their keys, if and only if every
   leaf of the destination is replaced or spared, no padded slot is left over, and no number is in the way. It raises
   if and only if a number is in the way.
   */
  lemma CopyNodesExactlyWhen(d: Entries, src: Entries, qs: seq<Path>)
    requires NormalRoot(Dict(d)) && NormalRoot(Dict(src)) && AllNodes(Dict(src), qs)
    ensures var (r, err) := Carry(d, src, KeysOf(qs), false);
      && (err == None <==> ClearWay(Dict(d), qs))
      && (Copied(Dict(d), Dict(src), qs, Dict(r)) <==>
            NodesFit(Dict(d), qs) && NoGaps(Dict(d), qs) && ClearWay(Dict(d), qs))
  {
    CopyRuns(d, src, qs);
    var r := Dict(Carry(d, src, KeysOf(qs), false).0);
    if NodesFit(Dict(d), qs) && NoGaps(Dict(d), qs) && ClearWay(Dict(d), qs) {
      forall t ensures LeafAt(r, t) == NodeLeaf(Dict(d), Dict(src), qs, t) {
        FilledIsCopied(Dict(d), Dict(src), qs, r, t);
      }
    }
    if Copied(Dict(d), Dict(src), qs, r) {
      CopiedFits(Dict(d), Dict(src), qs, r);
      CopiedIsClear(Dict(d), Dict(src), qs, r);
      CopiedHasNoGaps(Dict(d), Dict(src), qs, r);
    }
  }

  lemma FilledIsCopied(d: Value, src: Value, qs: seq<Path>, r: Value, t: Path)
    requires AllNodes(src, qs) && CopyInv(d, src, qs, r) && NodesFit(d, qs) && NoGaps(d, qs)
    ensures LeafAt(r, t) == NodeLeaf(d, src, qs, t)
  {
    if Covered(qs, t) {
      CoveredIsSource(src, qs, r, t);
    } else if Leaf(r, t) && LeafAt(r, t) != LeafAt(d, t) {
      PadIsFilled(d, src, qs, r, t);
    }
  }

  /** What covers a path below `t` covers `t` or leads there. */
  lemma CoveredFromAbove(qs: seq<Path>, t: Path, s: Path)
    requires t <= s
    ensures Covered(qs, s) ==> Covered(qs, t) || exists n :: 0 <= n < |qs| && t <= qs[n]
  {
    if Covered(qs, s) {
      var n :| 0 <= n < |qs| && qs[n] <= s;
      assert qs[n] <= t || t <= qs[n];
    }
  }

  lemma PadIsFilled(d: Value, src: Value, qs: seq<Path>, r: Value, t: Path)
    requires AllNodes(src, qs) && CopyInv(d, src, qs, r) && NodesFit(d, qs) && NoGaps(d, qs)
    requires Leaf(r, t) && PadOf(qs, t) && !Covered(qs, t)
    ensures LeafAt(r, t) == LeafAt(d, t)
  {
    var m :| 0 <= m < |qs| && SlotBefore(qs[m], t);
    assert Filled(d, qs, t);
    if n :| 0 <= n < |qs| && t <= qs[n] {
      LeafIsLast(r, t, qs[n]);
    } else {
      var s :| Leaf(d, s) && t <= s;
      CoveredFromAbove(qs, t, s);
      LeafIsLast(r, t, s);
    }
  }

  lemma CopiedFits(d: Value, src: Value, qs: seq<Path>, r: Value)
    requires NormalRoot(src) && AllNodes(src, qs) && Copied(d, src, qs, r)
    ensures NodesFit(d, qs)
  {
    forall s, n | Leaf(d, s) && !Covered(qs, s) && 0 <= n < |qs| ensures Apart(s, qs[n]) && PartAlike(s, qs[n]) {
      var t := LeafUnder(src, qs[n]);
      assert LeafAt(r, t) == NodeLeaf(d, src, qs, t);
      assert LeafAt(r, s) == NodeLeaf(d, src, qs, s);
      LeavesPart(r, s, t);
      ApartIsUnrelated(s, qs[n]);
      ApartIsUnrelated(s, t);
      PartAlikeBelow(s, qs[n], t);
    }
  }

  lemma CopiedIsClear(d: Value, src: Value, qs: seq<Path>, r: Value)
    requires AllNodes(src, qs) && Copied(d, src, qs, r) && NodesFit(d, qs)
    ensures !Stopped(d, qs, r)
  {
    forall m, s | 0 <= m < |qs| && NumberInTheWay(d, qs, m, s) ensures LeafAt(r, s) != LeafAt(d, s) {
      assert LeafAt(r, s) == NodeLeaf(d, src, qs, s);
      ApartIsUnrelated(s, qs[m]);
      if Leaf(src, s) {
        LeafIsLast(src, s, qs[m]);
      }
    }
  }

  lemma CopiedHasNoGaps(d: Value, src: Value, qs: seq<Path>, r: Value)
    requires NormalRoot(src) && AllNodes(src, qs) && Copied(d, src, qs, r) && NodesPresent(src, qs, r)
    ensures NoGaps(d, qs)
  {
    forall m, u | 0 <= m < |qs| && SlotBefore(qs[m], u) ensures Filled(d, qs, u) {
      SlotExists(r, qs[m], u);
      var t := LeafUnder(r, u);
      assert LeafAt(r, t) == NodeLeaf(d, src, qs, t);
      CoveredFromAbove(qs, u, t);
    }
  }

  /**
   Merging a key that leads to a dict or a list replaces what the destination has under it, as copying does; only a
   leaf at that very key is kept.
   */
  lemma MergeReplacesNode(d: Entries, src: Entries, p: Path)
    requires NormalRoot(Dict(d)) && NormalRoot(Dict(src))
    requires p != [] && At(Dict(src), p).Some? && Container(At(Dict(src), p).value)
    ensures var (r, err) := CarryOne(d, src, KeyOf(p), true);
      if Leaf(Dict(d), p) then (r, err) == (d, None)
      else if Blocked(Dict(d), p) then (r, err) == (d, Some(AttributeFault))
      else err == None && At(Dict(r), p) == At(Dict(src), p)
  {
    NodeIsGood(Dict(src), p);
    HasKeyIsLeaf(d, p);
    ReadIsAt(src, p);
    SetKeyIsPut(d, p, At(Dict(src), p).value);
    PutThenAt(Dict(d), p, At(Dict(src), p).value);
  }
}
