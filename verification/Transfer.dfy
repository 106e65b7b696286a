/**
 Carrying leaves from one payload to another, one key at a time, as `copy` and `merge` do, and what
 that makes of the whole tree.
 */
module Transfer {
  import opened Wrappers
  import opened Tree
  import opened Keys
  import opened Access
  import opened Flatten
  import opened Payload

  /**
   The loops of `copy` (`keep` false) and `_merge` (`keep` true): each key is read from the source and
   set in the destination, where `_merge` skips keys that the destination already lists.
   */
  ghost function Carry(d: Entries, src: Entries, keys: seq<string>, keep: bool): (Entries, Option<Fault>) {
    if keys == [] then (d, None) else
      var r := Carry(d, src, keys[..|keys| - 1], keep);
      if r.1.Some? then r else CarryOne(r.0, src, keys[|keys| - 1], keep)
  }

  ghost function CarryOne(d: Entries, src: Entries, key: string, keep: bool): (Entries, Option<Fault>) {
    if keep && HasKey(d, key) then (d, None)
    else match GetKey(key, src)
      case Ok(v) => SetC(d, Comps(key), v)
      case Err(e) => (d, Some(e))
  }

  /** The loops when source and destination are one payload: each key is read after the earlier ones were set. */
  ghost function CarrySelf(d: Entries, keys: seq<string>, keep: bool): (Entries, Option<Fault>) {
    if keys == [] then (d, None) else
      var r := CarrySelf(d, keys[..|keys| - 1], keep);
      if r.1.Some? then r else CarryOne(r.0, r.0, keys[|keys| - 1], keep)
  }

  /** Keys that read a value can be carried onto themselves: nothing changes and nothing is raised. */
  lemma {:induction false} CarrySelfSame(d: Entries, keys: seq<string>, keep: bool)
    requires forall k :: k in keys ==> Reading(d, k).Some?
    ensures CarrySelf(d, keys, keep) == (d, None)
    decreases |keys|
  {
    if keys != [] {
      var front, key := keys[..|keys| - 1], keys[|keys| - 1];
      assert key in keys;
      CarrySelfSame(d, front, keep);
      SetWhatIsRead(d, key);
    }
  }

  /** No leaf of `d` lies above or below `p`, or asks for a dict where `p` asks for a list, or the other way round. */
  ghost predicate FitsBeside(d: Value, p: Path) {
    forall s :: Leaf(d, s) ==> s == p || (Apart(s, p) && PartAlike(s, p))
  }

  ghost predicate AllFit(d: Value, ps: seq<Path>) {
    forall n :: 0 <= n < |ps| ==> FitsBeside(d, ps[n])
  }

  /** No leaf of one tree lies above a path of the other, and no node is a dict in one and a list in the other. */
  ghost predicate Compatible(d: Value, src: Value) {
    forall t :: Leaf(src, t) ==> FitsBeside(d, t)
  }

  // ----- one leaf -----

  /** Where `p` may be written: each leaf is at `p`, above it, or beside it with the same kind of step. */
  ghost predicate Writable(v: Value, p: Path) {
    forall u :: Leaf(v, u) ==> u == p || (u <= p && LeafAt(v, u) == Some(Blank)) || (Apart(u, p) && PartAlike(u, p))
  }

  /** The leaves after writing a scalar: it replaces what lay above it, and pads the slots before it. */
  lemma PutLeaf(v: Value, p: Path, x: Value, t: Path)
    requires Scalar(x) && Writable(v, p)
    ensures LeafAt(Put(v, p, x), t) ==
            if t == p then Some(x)
            else if !Apart(p, t) then None
            else if SlotBefore(p, t) && At(v, t).None? then Some(Blank)
            else LeafAt(v, t)
  {
    var r := Put(v, p, x);
    PutThenAt(v, p, x);
    ApartIsUnrelated(p, t);
    if t == p {
    } else if Apart(p, t) {
      PutFrame(v, p, x, t);
      ApartSymmetric(p, t);
      ApartIsUnrelated(t, p);
      PaddedIsSlot(v, p, t);
    } else if t <= p {
      if Leaf(r, t) {
        LeafIsLast(r, t, p);
      }
    } else {
      if Leaf(r, t) {
        LeafIsLast(r, p, t);
      }
    }
  }

  lemma PutLeafNormal(v: Value, p: Path, x: Value)
    requires NormalRoot(v) && GoodSteps(p) && Scalar(x) && Writable(v, p)
    ensures !Blocked(v, p) && NormalRoot(Put(v, p, x))
  {
    PutNormal(v, p, x);
    if Blocked(v, p) {
      var k := BlockedByLeaf(v, p);
      ApartIsUnrelated(p[..k], p);
    }
  }

  // ----- one key -----

  lemma HasKeyIsLeaf(d: Entries, p: Path)
    requires NormalRoot(Dict(d)) && GoodSteps(p)
    ensures HasKey(d, KeyOf(p)) <==> Leaf(Dict(d), p)
  {
    FlatIsLeaf(Dict(d), p);
    if HasKey(d, KeyOf(p)) {
      var s :| Flat(Dict(d), s) && KeyOf(s) == KeyOf(p);
      FlatIsLeaf(Dict(d), s);
      LeavesAreGood(Dict(d), s);
      KeysDistinct(s, p);
    }
  }

  /** Carrying any printable key: kept, or raising what reading it raises, or blocked, or written. */
  lemma CarryOneExactly(d: Entries, src: Entries, s: Path, keep: bool)
    requires GoodSteps(s) && (keep ==> NormalRoot(Dict(d)))
    ensures var got := Answer(Dict(src), s);
      CarryOne(d, src, KeyOf(s), keep) ==
      if keep && Leaf(Dict(d), s) then (d, None)
      else if got.Err? then (d, Some(got.error))
      else if Blocked(Dict(d), s) then (d, Some(AttributeFault))
      else (Put(Dict(d), s, got.value).m, None)
  {
    if keep {
      HasKeyIsLeaf(d, s);
    }
    ReadExactly(src, s);
    if Answer(Dict(src), s).Ok? {
      SetKeyIsPut(d, s, Answer(Dict(src), s).value);
    }
  }

  /** A copied key that leads nowhere in the source stores a None, and so takes away what the destination read. */
  lemma CopyOfNothing(d: Entries, src: Entries, s: Path)
    requires GoodSteps(s) && Answer(Dict(src), s) == Ok(Null) && !Blocked(Dict(d), s)
    ensures var (r, err) := CarryOne(d, src, KeyOf(s), false);
      err == None && At(Dict(r), s) == Some(Null) && Reading(r, KeyOf(s)) == None
  {
    CarryOneExactly(d, src, s, false);
    PutThenAt(Dict(d), s, Null);
    ReadIsAt(Put(Dict(d), s, Null).m, s);
  }

  /** A printable key that leads to a node. */
  ghost predicate Steady(d: Entries, key: string) {
    exists s :: GoodSteps(s) && KeyOf(s) == key && At(Dict(d), s).Some?
  }

  /** Copied within one payload, a key with a node changes nothing. */
  lemma CopyOntoItself(d: Entries, key: string)
    requires Steady(d, key)
    ensures CarryOne(d, d, key, false) == (d, None)
  {
    var s :| GoodSteps(s) && KeyOf(s) == key && At(Dict(d), s).Some?;
    ReadIsAt(d, s);
    SetKeyIsPut(d, s, At(Dict(d), s).value);
    PutSame(Dict(d), s);
  }

  /** Nor do several, and any other that follows finds the payload as it was. */
  lemma {:induction false} CopyWithin(d: Entries, keys: seq<string>, key: string)
    requires forall k :: k in keys ==> Steady(d, k)
    ensures CarrySelf(d, keys, false) == (d, None)
    ensures CarrySelf(d, keys + [key], false) == CarryOne(d, d, key, false)
    decreases |keys|
  {
    if keys != [] {
      var front, last := keys[..|keys| - 1], keys[|keys| - 1];
      assert keys == front + [last] && last in keys;
      CopyWithin(d, front, last);
      CopyOntoItself(d, last);
    }
    CopyOneMore(d, keys, key);
  }

  lemma CopyOneMore(d: Entries, keys: seq<string>, key: string)
    requires CarrySelf(d, keys, false) == (d, None)
    ensures CarrySelf(d, keys + [key], false) == CarryOne(d, d, key, false)
  {
    assert (keys + [key])[..|keys|] == keys;
  }

  // ----- what every pass of the loop keeps -----

  /** The destination's leaves are still there, with their values unless they were requested and not kept. */
  ghost predicate Kept(d: Value, ps: seq<Path>, keep: bool, a: Value) {
    forall t :: Leaf(d, t) ==> Leaf(a, t) && (keep || t !in ps ==> LeafAt(a, t) == LeafAt(d, t))
  }

  /** What was requested is there, with the source's value unless a present key is kept. */
  ghost predicate Present(src: Value, ps: seq<Path>, keep: bool, a: Value) {
    forall t :: t in ps ==> Leaf(a, t) && (!keep ==> LeafAt(a, t) == LeafAt(src, t))
  }

  /** `t` was carried, and if present keys are kept it was not padded before. */
  ghost predicate Fetched(src: Value, ps: seq<Path>, keep: bool, t: Path, x: Option<Value>) {
    x == LeafAt(src, t) &&
    exists n :: 0 <= n < |ps| && ps[n] == t && (keep ==> forall m :: 0 <= m < n ==> !SlotBefore(ps[m], t))
  }

  /** `t` was padded for the request `m`, when nothing was at or under it. */
  ghost predicate PaddedFor(d: Value, ps: seq<Path>, m: nat, t: Path) {
    && m < |ps| && SlotBefore(ps[m], t)
    && (forall n :: 0 <= n < m ==> !(t <= ps[n]))
    && forall s :: Leaf(d, s) ==> !(t <= s)
  }

  ghost predicate LeftBlank(d: Value, ps: seq<Path>, t: Path, x: Option<Value>) {
    x == Some(Blank) && exists m :: PaddedFor(d, ps, m, t)
  }

  /** Where the leaves come from. */
  ghost predicate Explained(d: Value, src: Value, ps: seq<Path>, keep: bool, a: Value) {
    forall t :: Leaf(a, t) ==>
      Leaf(d, t) || Fetched(src, ps, keep, t, LeafAt(a, t)) || LeftBlank(d, ps, t, LeafAt(a, t))
  }

  ghost predicate CarryInv(d: Value, src: Value, ps: seq<Path>, keep: bool, a: Value) {
    NormalRoot(a) && Kept(d, ps, keep, a) && Present(src, ps, keep, a) && Explained(d, src, ps, keep, a)
  }

  ghost predicate AllLeaves(src: Value, ps: seq<Path>) {
    forall n :: 0 <= n < |ps| ==> Leaf(src, ps[n])
  }

  /** A source leaf never lies above a leaf of the destination, and below one only if that is a padded slot. */
  lemma SourceLeafWritable(d: Value, src: Value, ps: seq<Path>, keep: bool, a: Value, p: Path)
    requires AllLeaves(src, ps) && Leaf(src, p) && FitsBeside(d, p)
    requires Explained(d, src, ps, keep, a)
    ensures Writable(a, p)
  {
    forall t | Leaf(a, t)
      ensures t == p || (t <= p && LeafAt(a, t) == Some(Blank)) || (Apart(t, p) && PartAlike(t, p))
    {
      if Leaf(d, t) {
      } else if Fetched(src, ps, keep, t, LeafAt(a, t)) {
        if t != p {
          LeavesPart(src, t, p);
        }
      } else {
        var m: nat :| PaddedFor(d, ps, m, t);
        SlotExists(src, ps[m], t);
        ApartIsUnrelated(t, p);
        if Apart(t, p) {
          NodesPartAlike(src, t, p);
        } else if p <= t {
          LeafIsLast(src, p, t);
        }
      }
    }
  }

  /** A slot before a request that has been carried is there. */
  lemma SlotOfRequest(src: Value, ps: seq<Path>, keep: bool, a: Value, m: nat, t: Path)
    requires m < |ps| && SlotBefore(ps[m], t) && Present(src, ps, keep, a)
    ensures At(a, t).Some?
  {
    assert ps[m] in ps;
    SlotExists(a, ps[m], t);
  }

  /** One more request that is present and kept. */
  lemma SkipStep(d: Value, src: Value, ps: seq<Path>, p: Path, a: Value)
    requires CarryInv(d, src, ps, true, a) && Leaf(a, p)
    ensures CarryInv(d, src, ps + [p], true, a)
  {
    forall t | Leaf(a, t) && !Leaf(d, t)
      ensures Fetched(src, ps + [p], true, t, LeafAt(a, t)) || LeftBlank(d, ps + [p], t, LeafAt(a, t))
    {
      Lengthen(d, src, ps, p, true, t, LeafAt(a, t));
    }
  }

  lemma Lengthen(d: Value, src: Value, ps: seq<Path>, p: Path, keep: bool, t: Path, x: Option<Value>)
    ensures Fetched(src, ps, keep, t, x) ==> Fetched(src, ps + [p], keep, t, x)
    ensures LeftBlank(d, ps, t, x) ==> LeftBlank(d, ps + [p], t, x)
  {
    var qs := ps + [p];
    if Fetched(src, ps, keep, t, x) {
      var n :| 0 <= n < |ps| && ps[n] == t && (keep ==> forall m :: 0 <= m < n ==> !SlotBefore(ps[m], t));
      assert qs[n] == t;
      assert forall m :: 0 <= m < n ==> qs[m] == ps[m];
    }
    if LeftBlank(d, ps, t, x) {
      var m: nat :| PaddedFor(d, ps, m, t);
      assert forall n :: 0 <= n <= m ==> qs[n] == ps[n];
      assert PaddedFor(d, qs, m, t);
    }
  }

  /** A request that is written although present keys are kept was not there, not even padded. */
  lemma NewlyFetched(src: Value, ps: seq<Path>, p: Path, keep: bool, a: Value)
    requires NormalRoot(a) && Present(src, ps, keep, a) && Writable(a, p) && p != []
    requires !(keep && Leaf(a, p))
    ensures Fetched(src, ps + [p], keep, p, LeafAt(src, p))
  {
    var qs := ps + [p];
    assert qs[|ps|] == p;
    if keep {
      forall m | 0 <= m < |ps| ensures !SlotBefore(qs[m], p) {
        if SlotBefore(ps[m], p) {
          SlotOfRequest(src, ps, keep, a, m, p);
          var t := LeafUnder(a, p);
          ApartIsUnrelated(t, p);
        }
      }
    }
  }

  lemma NewlyPadded(d: Value, src: Value, ps: seq<Path>, p: Path, keep: bool, a: Value, t: Path)
    requires Kept(d, ps, keep, a) && Present(src, ps, keep, a)
    requires SlotBefore(p, t) && At(a, t).None?
    ensures LeftBlank(d, ps + [p], t, Some(Blank))
  {
    var qs := ps + [p];
    forall n | 0 <= n < |ps| ensures !(t <= qs[n]) {
      assert qs[n] in ps;
      if t <= qs[n] {
        NodeAbove(a, t, qs[n]);
      }
    }
    forall s | Leaf(d, s) ensures !(t <= s) {
      if t <= s {
        NodeAbove(a, t, s);
      }
    }
    assert PaddedFor(d, qs, |ps|, t);
  }

  /** One more request that is written. */
  lemma WriteStep(d: Value, src: Value, ps: seq<Path>, p: Path, keep: bool, a: Value, x: Value)
    requires AllLeaves(src, ps) && GoodSteps(p) && LeafAt(src, p) == Some(x) && FitsBeside(d, p)
    requires CarryInv(d, src, ps, keep, a) && !(keep && Leaf(a, p))
    ensures !Blocked(a, p) && CarryInv(d, src, ps + [p], keep, Put(a, p, x))
  {
    var r := Put(a, p, x);
    SourceLeafWritable(d, src, ps, keep, a, p);
    PutLeafNormal(a, p, x);
    forall t | Leaf(d, t) ensures Leaf(r, t) && (keep || t !in ps + [p] ==> LeafAt(r, t) == LeafAt(d, t)) {
      PutLeaf(a, p, x, t);
      ApartSymmetric(t, p);
    }
    forall t | t in ps + [p] ensures Leaf(r, t) && (!keep ==> LeafAt(r, t) == LeafAt(src, t)) {
      PutLeaf(a, p, x, t);
      if t != p {
        assert t in ps;
        LeavesPart(src, p, t);
      }
    }
    forall t | Leaf(r, t) && !Leaf(d, t)
      ensures Fetched(src, ps + [p], keep, t, LeafAt(r, t)) || LeftBlank(d, ps + [p], t, LeafAt(r, t))
    {
      PutLeaf(a, p, x, t);
      if t == p {
        NewlyFetched(src, ps, p, keep, a);
      } else if SlotBefore(p, t) && At(a, t).None? {
        NewlyPadded(d, src, ps, p, keep, a, t);
      } else {
        Lengthen(d, src, ps, p, keep, t, LeafAt(a, t));
      }
    }
  }

  // ----- all requests -----

  /** The leaf map after carrying the leaves `ps`. */
  function CarriedLeaf(d: Value, src: Value, ps: seq<Path>, keep: bool, t: Path): Option<Value> {
    if t !in ps then LeafAt(d, t)
    else if keep && Leaf(d, t) then LeafAt(d, t)
    else LeafAt(src, t)
  }

  /** `r` is normal and has exactly the leaves of `d` and those carried from `src`. */
  ghost predicate Carried(d: Value, src: Value, ps: seq<Path>, keep: bool, r: Value) {
    NormalRoot(r) && forall t :: LeafAt(r, t) == CarriedLeaf(d, src, ps, keep, t)
  }

  lemma CarryOneKeeps(d: Value, src: Entries, ps: seq<Path>, p: Path, keep: bool, a: Entries)
    requires NormalRoot(Dict(src)) && AllLeaves(Dict(src), ps) && Leaf(Dict(src), p) && FitsBeside(d, p)
    requires CarryInv(d, Dict(src), ps, keep, Dict(a))
    ensures p != []
    ensures var (r, err) := CarryOne(a, src, KeyOf(p), keep);
      err == None && CarryInv(d, Dict(src), ps + [p], keep, Dict(r))
  {
    LeavesAreGood(Dict(src), p);
    HasKeyIsLeaf(a, p);
    if keep && Leaf(Dict(a), p) {
      SkipStep(d, Dict(src), ps, p, Dict(a));
    } else {
      var x := At(Dict(src), p).value;
      ReadIsAt(src, p);
      WriteStep(d, Dict(src), ps, p, keep, Dict(a), x);
      SetKeyIsPut(a, p, x);
    }
  }

  /** What has been carried of `qs` is as it should be, and nothing has been raised. */
  ghost predicate CarriesWell(d: Entries, src: Entries, qs: seq<Path>, keep: bool)
    requires forall n :: 0 <= n < |qs| ==> qs[n] != []
  {
    var (r, err) := Carry(d, src, KeysOf(qs), keep);
    err == None && CarryInv(Dict(d), Dict(src), qs, keep, Dict(r))
  }

  lemma CarryLast(d: Entries, src: Entries, ps: seq<Path>, p: Path, keep: bool)
    requires NormalRoot(Dict(src)) && AllLeaves(Dict(src), ps) && Leaf(Dict(src), p) && FitsBeside(Dict(d), p)
    requires p != [] && forall n :: 0 <= n < |ps| ==> ps[n] != []
    requires CarriesWell(d, src, ps, keep)
    ensures CarriesWell(d, src, ps + [p], keep)
  {
    CarryOneKeeps(Dict(d), src, ps, p, keep, Carry(d, src, KeysOf(ps), keep).0);
    CarrySnoc(d, src, ps, p, keep);
  }

  lemma CarrySnoc(d: Entries, src: Entries, ps: seq<Path>, p: Path, keep: bool)
    requires p != [] && forall n :: 0 <= n < |ps| ==> ps[n] != []
    ensures var r := Carry(d, src, KeysOf(ps), keep);
      r.1 == None ==> Carry(d, src, KeysOf(ps + [p]), keep) == CarryOne(r.0, src, KeyOf(p), keep)
  {
    var keys := KeysOf(ps + [p]);
    assert keys[..|keys| - 1] == KeysOf(ps);
  }

  lemma CarryStart(d: Entries, src: Entries, keep: bool)
    requires NormalRoot(Dict(d))
    ensures CarriesWell(d, src, [], keep)
  {
  }

  lemma {:induction false} CarryKeeps(d: Entries, src: Entries, qs: seq<Path>, keep: bool)
    requires NormalRoot(Dict(d)) && NormalRoot(Dict(src))
    requires AllLeaves(Dict(src), qs) && AllFit(Dict(d), qs)
    ensures forall n :: 0 <= n < |qs| ==> qs[n] != []
    ensures CarriesWell(d, src, qs, keep)
    decreases |qs|
  {
    PathsNotEmpty(Dict(src), qs);
    if qs == [] {
      CarryStart(d, src, keep);
    } else {
      var ps, p := qs[..|qs| - 1], qs[|qs| - 1];
      assert FitsBeside(Dict(d), p) && qs == ps + [p];
      CarryKeeps(d, src, ps, keep);
      CarryLast(d, src, ps, p, keep);
    }
  }

  lemma PathsNotEmpty(src: Value, ps: seq<Path>)
    requires NormalRoot(src) && AllLeaves(src, ps)
    ensures forall i :: 0 <= i < |ps| ==> ps[i] != []
  {
    forall i | 0 <= i < |ps| ensures ps[i] != [] {
      LeavesAreGood(src, ps[i]);
    }
  }

  /**
   No blank is left over in the slot `u` before the request `m`: the destination has a leaf at or under it, or
   a request leads there. If present keys are kept, a request for the slot itself must come before `m`,
   unless the source holds a blank there.
   */
  ghost predicate Provided(d: Value, src: Value, qs: seq<Path>, keep: bool, m: nat, u: Path) {
    (exists t :: Leaf(d, t) && u <= t) ||
    (exists n :: 0 <= n < |qs| && u <= qs[n] && (keep ==> n < m || u != qs[n] || LeafAt(src, u) == Some(Blank)))
  }

  ghost predicate Tidy(d: Value, src: Value, qs: seq<Path>, keep: bool) {
    forall m, u :: 0 <= m < |qs| && SlotBefore(qs[m], u) ==> Provided(d, src, qs, keep, m, u)
  }

  /**
   Carrying any leaves of the source, in any order, gives exactly the expected leaves if and only if they
   fit beside the destination's leaves and every slot before a requested one is provided. If they fit,
   nothing is raised and the normal form is kept.
   */
  lemma CarryExactlyWhen(d: Entries, src: Entries, qs: seq<Path>, keep: bool)
    requires NormalRoot(Dict(d)) && NormalRoot(Dict(src)) && AllLeaves(Dict(src), qs)
    ensures forall n :: 0 <= n < |qs| ==> qs[n] != []
    ensures var (r, err) := Carry(d, src, KeysOf(qs), keep);
      && (Carried(Dict(d), Dict(src), qs, keep, Dict(r)) <==>
            AllFit(Dict(d), qs) && Tidy(Dict(d), Dict(src), qs, keep))
      && (AllFit(Dict(d), qs) ==> err == None && NormalRoot(Dict(r)))
  {
    PathsNotEmpty(Dict(src), qs);
    var a := Dict(Carry(d, src, KeysOf(qs), keep).0);
    if AllFit(Dict(d), qs) {
      CarryKeeps(d, src, qs, keep);
      if Tidy(Dict(d), Dict(src), qs, keep) {
        forall t ensures LeafAt(a, t) == CarriedLeaf(Dict(d), Dict(src), qs, keep, t) {
          TidyCarries(Dict(d), Dict(src), qs, keep, a, t);
        }
      }
    }
    if Carried(Dict(d), Dict(src), qs, keep, a) {
      CarriedFits(Dict(d), Dict(src), qs, keep, a);
      CarryKeeps(d, src, qs, keep);
      forall m, u | 0 <= m < |qs| && SlotBefore(qs[m], u) ensures Provided(Dict(d), Dict(src), qs, keep, m, u) {
        CarriedIsTidy(Dict(d), Dict(src), qs, keep, a, m, u);
      }
    }
  }

  /** Two leaves of one tree part, and part alike. */
  lemma CarriedFits(d: Value, src: Value, qs: seq<Path>, keep: bool, a: Value)
    requires AllLeaves(src, qs) && Carried(d, src, qs, keep, a)
    ensures AllFit(d, qs)
  {
    forall n, s | 0 <= n < |qs| && Leaf(d, s) && s != qs[n] ensures Apart(s, qs[n]) && PartAlike(s, qs[n]) {
      assert LeafAt(a, s) == CarriedLeaf(d, src, qs, keep, s);
      assert LeafAt(a, qs[n]) == CarriedLeaf(d, src, qs, keep, qs[n]);
      LeavesPart(a, s, qs[n]);
    }
  }

  /** If a copy gives the expected leaves, so does one of the same keys in any other order, and the trees are equal. */
  lemma CopyInAnyOrder(d: Entries, src: Entries, qs: seq<Path>, other: seq<Path>)
    requires NormalRoot(Dict(d)) && NormalRoot(Dict(src)) && AllLeaves(Dict(src), qs)
    requires forall q :: q in qs <==> q in other
    ensures forall n :: 0 <= n < |qs| ==> qs[n] != []
    ensures forall n :: 0 <= n < |other| ==> other[n] != []
    ensures Carried(Dict(d), Dict(src), qs, false, Dict(Carry(d, src, KeysOf(qs), false).0)) ==>
              Carry(d, src, KeysOf(other), false) == Carry(d, src, KeysOf(qs), false)
  {
    forall n | 0 <= n < |other| ensures Leaf(Dict(src), other[n]) {
      assert other[n] in qs;
    }
    CarryExactlyWhen(d, src, qs, false);
    CarryExactlyWhen(d, src, other, false);
    var r, o := Dict(Carry(d, src, KeysOf(qs), false).0), Dict(Carry(d, src, KeysOf(other), false).0);
    if Carried(Dict(d), Dict(src), qs, false, r) {
      SameRequests(Dict(d), Dict(src), qs, other);
      forall t ensures LeafAt(r, t) == LeafAt(o, t) {
        assert LeafAt(r, t) == CarriedLeaf(Dict(d), Dict(src), qs, false, t);
        assert LeafAt(o, t) == CarriedLeaf(Dict(d), Dict(src), other, false, t);
      }
      DictLeavesDetermine(r, o);
    }
  }

  lemma SameRequests(d: Value, src: Value, qs: seq<Path>, other: seq<Path>)
    requires forall q :: q in qs <==> q in other
    requires AllFit(d, qs) && Tidy(d, src, qs, false)
    ensures AllFit(d, other) && Tidy(d, src, other, false)
  {
    forall n | 0 <= n < |other| ensures FitsBeside(d, other[n]) {
      assert other[n] in qs;
    }
    forall m, u | 0 <= m < |other| && SlotBefore(other[m], u) ensures Provided(d, src, other, false, m, u) {
      assert other[m] in qs;
      var k :| 0 <= k < |qs| && qs[k] == other[m];
      assert Provided(d, src, qs, false, k, u);
      if n :| 0 <= n < |qs| && u <= qs[n] {
        assert qs[n] in other;
      }
    }
  }

  lemma TidyCarries(d: Value, src: Value, qs: seq<Path>, keep: bool, a: Value, t: Path)
    requires AllLeaves(src, qs) && CarryInv(d, src, qs, keep, a)
    requires Tidy(d, src, qs, keep)
    ensures LeafAt(a, t) == CarriedLeaf(d, src, qs, keep, t)
  {
    if Leaf(a, t) && !Leaf(d, t) && !Fetched(src, qs, keep, t, LeafAt(a, t)) {
      TidyPads(d, src, qs, keep, a, t);
    }
  }

  /** A slot still blank at the end holds what was requested. */
  lemma TidyPads(d: Value, src: Value, qs: seq<Path>, keep: bool, a: Value, t: Path)
    requires AllLeaves(src, qs) && Present(src, qs, keep, a) && Tidy(d, src, qs, keep)
    requires Leaf(a, t) && LeftBlank(d, qs, t, LeafAt(a, t))
    ensures t in qs && LeafAt(a, t) == LeafAt(src, t)
  {
    var m: nat :| PaddedFor(d, qs, m, t);
    assert Provided(d, src, qs, keep, m, t);
    var n :| 0 <= n < |qs| && t <= qs[n] && (keep ==> n < m || t != qs[n] || LeafAt(src, t) == Some(Blank));
    assert qs[n] in qs;
    LeafIsLast(a, t, qs[n]);
  }

  lemma CarriedIsTidy(d: Value, src: Value, qs: seq<Path>, keep: bool, a: Value, m: nat, u: Path)
    requires AllLeaves(src, qs) && CarryInv(d, src, qs, keep, a)
    requires Carried(d, src, qs, keep, a)
    requires m < |qs| && SlotBefore(qs[m], u)
    ensures Provided(d, src, qs, keep, m, u)
  {
    SlotOfRequest(src, qs, keep, a, m, u);
    var t := LeafUnder(a, u);
    assert LeafAt(a, t) == CarriedLeaf(d, src, qs, keep, t);
    if !Leaf(d, t) {
      var n :| 0 <= n < |qs| && qs[n] == t;
      SlotIsBeside(qs[m], u);
      ApartIsUnrelated(qs[m], u);
      if t == u && LeafAt(src, t) != Some(Blank) {
        assert Fetched(src, qs, keep, t, LeafAt(a, t));
      }
    }
  }

  // ----- all leaves -----

  lemma {:induction false} SlotComesFirst(s: Path, u: Path, t: Path)
    requires SlotBefore(s, u) && u <= t
    ensures IdxAfter(s, t)
    decreases |s|
  {
    if s[0] == u[0] {
      assert u[1..] <= t[1..];
      SlotComesFirst(s[1..], u[1..], t[1..]);
    }
  }

  lemma {:induction false} IdxAfterIrreflexive(s: Path)
    ensures !IdxAfter(s, s)
  {
    if s != [] {
      IdxAfterIrreflexive(s[1..]);
    }
  }

  /** In list order, every slot has been requested before one that comes after it. */
  lemma ListedIsTidy(d: Value, src: Value, ps: seq<Path>, j: nat, keep: bool)
    requires NormalRoot(src) && Enumerates(src, ps) && j <= |ps|
    ensures Tidy(d, src, ps[..j], keep)
  {
    var qs := ps[..j];
    forall m, u | 0 <= m < j && SlotBefore(qs[m], u) ensures Provided(d, src, qs, keep, m, u) {
      assert ps[m] in ps;
      SlotExists(src, ps[m], u);
      var q := LeafUnder(src, u);
      var n :| 0 <= n < |ps| && ps[n] == q;
      SlotComesFirst(ps[m], u, q);
      IdxAfterIrreflexive(q);
      assert qs[n] == q;
    }
  }

  /** Carrying the listed keys of a compatible normal source never fails and yields the expected leaves. */
  lemma CarryLaw(d: Entries, src: Entries, ps: seq<Path>, j: nat, keep: bool)
    requires NormalRoot(Dict(d)) && NormalRoot(Dict(src)) && Compatible(Dict(d), Dict(src))
    requires Enumerates(Dict(src), ps) && j <= |ps|
    ensures forall i :: 0 <= i < |ps| ==> ps[i] != []
    ensures Carry(d, src, KeysOf(ps)[..j], keep).1 == None
    ensures Carried(Dict(d), Dict(src), ps[..j], keep, Dict(Carry(d, src, KeysOf(ps)[..j], keep).0))
  {
    ListedPathsNotEmpty(Dict(src), ps);
    var qs := ps[..j];
    forall n | 0 <= n < j ensures Leaf(Dict(src), qs[n]) {
      assert ps[n] in ps;
    }
    ListedIsTidy(Dict(d), Dict(src), ps, j, keep);
    assert AllFit(Dict(d), qs);
    CarryExactlyWhen(d, src, qs, keep);
    assert KeysOf(ps)[..j] == KeysOf(qs);
  }

  /** `r` has exactly the leaves of both trees; where they share one, the value is that of `high`. */
  ghost predicate Overlaid(low: Value, high: Value, r: Value) {
    forall t :: LeafAt(r, t) == if Leaf(high, t) then LeafAt(high, t) else LeafAt(low, t)
  }

  /** Only compatible trees can be overlaid: two leaves of one tree part, and part alike. */
  lemma OverlaidAreCompatible(low: Value, high: Value, r: Value)
    requires Overlaid(low, high, r)
    ensures Compatible(low, high) && Compatible(high, low)
  {
    forall s, t | Leaf(low, s) && Leaf(high, t) && s != t
      ensures Apart(s, t) && PartAlike(s, t) && Apart(t, s) && PartAlike(t, s)
    {
      assert LeafAt(r, s).Some? && LeafAt(r, t).Some?;
      LeavesPart(r, s, t);
      LeavesPart(r, t, s);
    }
  }

  // ----- copy -----

  /** Copying every key of a normal tree into an empty payload rebuilds exactly that tree. */
  lemma CopyRebuilds(src: Entries, ps: seq<Path>)
    requires NormalRoot(Dict(src)) && Enumerates(Dict(src), ps)
    ensures forall i :: 0 <= i < |ps| ==> ps[i] != []
    ensures Carry(map[], src, KeysOf(ps), false) == (src, None)
  {
    forall s ensures !Leaf(Dict(map[]), s) {
    }
    CopyOverlays(map[], src, ps);
    DictLeavesDetermine(Dict(Carry(map[], src, KeysOf(ps), false).0), Dict(src));
  }

  /**
   Copying all keys into another normal tree overlays the destination with the source exactly when
   the trees are compatible; then it raises nothing and keeps the normal form.
   */
  lemma CopyOverlays(d: Entries, src: Entries, ps: seq<Path>)
    requires NormalRoot(Dict(d)) && NormalRoot(Dict(src)) && Enumerates(Dict(src), ps)
    ensures forall i :: 0 <= i < |ps| ==> ps[i] != []
    ensures var (r, err) := Carry(d, src, KeysOf(ps), false);
      && (Overlaid(Dict(d), Dict(src), Dict(r)) <==> Compatible(Dict(d), Dict(src)))
      && (Compatible(Dict(d), Dict(src)) ==> err == None && NormalRoot(Dict(r)))
  {
    ListedPathsNotEmpty(Dict(src), ps);
    var r := Carry(d, src, KeysOf(ps), false).0;
    if Compatible(Dict(d), Dict(src)) {
      CarryAll(d, src, ps, false);
      forall t ensures LeafAt(Dict(r), t) == if Leaf(Dict(src), t) then LeafAt(Dict(src), t) else LeafAt(Dict(d), t) {
        assert LeafAt(Dict(r), t) == CarriedLeaf(Dict(d), Dict(src), ps, false, t);
      }
    }
    if Overlaid(Dict(d), Dict(src), Dict(r)) {
      OverlaidAreCompatible(Dict(d), Dict(src), Dict(r));
    }
  }

  lemma ListedPathsNotEmpty(src: Value, ps: seq<Path>)
    requires NormalRoot(src) && Enumerates(src, ps)
    ensures forall i :: 0 <= i < |ps| ==> ps[i] != []
  {
    forall i | 0 <= i < |ps| ensures Leaf(src, ps[i]) {
      assert ps[i] in ps;
    }
    PathsNotEmpty(src, ps);
  }

  lemma CarryAll(d: Entries, src: Entries, ps: seq<Path>, keep: bool)
    requires NormalRoot(Dict(d)) && NormalRoot(Dict(src)) && Compatible(Dict(d), Dict(src))
    requires Enumerates(Dict(src), ps)
    ensures forall i :: 0 <= i < |ps| ==> ps[i] != []
    ensures Carry(d, src, KeysOf(ps), keep).1 == None
    ensures Carried(Dict(d), Dict(src), ps, keep, Dict(Carry(d, src, KeysOf(ps), keep).0))
  {
    CarryLaw(d, src, ps, |ps|, keep);
    assert KeysOf(ps)[..|ps|] == KeysOf(ps) && ps[..|ps|] == ps;
  }

  // ----- merge -----

  /**
   Merging all keys of a normal tree overlays the source with the destination exactly when the trees
   are compatible; then it raises nothing and keeps the normal form.
   */
  lemma MergeOverlays(d: Entries, src: Entries, ps: seq<Path>)
    requires NormalRoot(Dict(d)) && NormalRoot(Dict(src)) && Enumerates(Dict(src), ps)
    ensures forall i :: 0 <= i < |ps| ==> ps[i] != []
    ensures var (r, err) := Carry(d, src, KeysOf(ps), true);
      && (Overlaid(Dict(src), Dict(d), Dict(r)) <==> Compatible(Dict(d), Dict(src)))
      && (Compatible(Dict(d), Dict(src)) ==> err == None && NormalRoot(Dict(r)))
  {
    ListedPathsNotEmpty(Dict(src), ps);
    var r := Carry(d, src, KeysOf(ps), true).0;
    if Compatible(Dict(d), Dict(src)) {
      CarryAll(d, src, ps, true);
      forall t ensures LeafAt(Dict(r), t) == if Leaf(Dict(d), t) then LeafAt(Dict(d), t) else LeafAt(Dict(src), t) {
        assert LeafAt(Dict(r), t) == CarriedLeaf(Dict(d), Dict(src), ps, true, t);
      }
    }
    if Overlaid(Dict(src), Dict(d), Dict(r)) {
      OverlaidAreCompatible(Dict(src), Dict(d), Dict(r));
    }
  }

  /** Merging again, with the source's keys listed in any order, changes nothing. */
  lemma {:induction false} MergeTwice(d: Entries, src: Entries, ps: seq<Path>, again: seq<Path>)
    requires NormalRoot(Dict(d)) && NormalRoot(Dict(src)) && Compatible(Dict(d), Dict(src))
    requires Enumerates(Dict(src), ps)
    requires forall i :: 0 <= i < |again| ==> Leaf(Dict(src), again[i])
    ensures forall i :: 0 <= i < |ps| ==> ps[i] != []
    ensures forall i :: 0 <= i < |again| ==> again[i] != []
    ensures var r := Carry(d, src, KeysOf(ps), true).0; Carry(r, src, KeysOf(again), true) == (r, None)
    decreases |again|
  {
    MergeOverlays(d, src, ps);
    var r := Carry(d, src, KeysOf(ps), true).0;
    forall i | 0 <= i < |again| ensures again[i] != [] {
      LeavesAreGood(Dict(src), again[i]);
    }
    if again != [] {
      var n := |again| - 1;
      MergeTwice(d, src, ps, again[..n]);
      assert KeysOf(again)[..n] == KeysOf(again[..n]);
      LeavesAreGood(Dict(src), again[n]);
      HasKeyIsLeaf(r, again[n]);
      assert LeafAt(Dict(r), again[n]).Some?;
    }
  }

  /** Setting slot 1 of a list that does not exist yet pads slot 0, which then counts as a key. */
  lemma HighSlotPads(n: string, y: Value)
    requires GoodName(n)
    ensures var s0, s1 := [Name(n), Idx(0)], [Name(n), Idx(1)];
      && SetC(map[], Comps(KeyOf(s1)), y).1 == None
      && HasKey(SetC(map[], Comps(KeyOf(s1)), y).0, KeyOf(s0))
      && Reading(SetC(map[], Comps(KeyOf(s1)), y).0, KeyOf(s0)) == Some(Str(""))
  {
    var s1 := [Name(n), Idx(1)];
    BlankNotBlocked([Idx(1)]);
    assert s1[1..] == [Idx(1)];
    SetKeyIsPut(map[], s1, y);
    HighSlotTree(n, y);
    FirstSlotReads(n, Blank, y);
  }

  lemma HighSlotTree(n: string, y: Value)
    ensures Put(Dict(map[]), [Name(n), Idx(1)], y) == Dict(map[n := List([Blank, y])])
  {
    PutCons(Dict(map[]), Name(n), [Idx(1)], y);
    PutCons(Blank, Idx(1), [], y);
    assert Attach(Blank, Idx(1), y).l == [Blank, y];
  }

  lemma FirstSlotReads(n: string, x: Value, y: Value)
    requires GoodName(n) && Scalar(x)
    ensures var d, s := map[n := List([x, y])], [Name(n), Idx(0)];
      HasKey(d, KeyOf(s)) && Reading(d, KeyOf(s)) == Some(x)
  {
    var d: Entries := map[n := List([x, y])];
    var s := [Name(n), Idx(0)];
    AtTwo(Dict(d), Name(n), Idx(0));
    ReadIsAt(d, s);
    assert s[1..] == [Idx(0)] && Flat(d[n], s[1..]);
    assert Flat(Dict(d), s);
  }

  /**
   The order of the keys matters: with the higher slot first, the slot it pads counts as present and
   its own key is not merged.
   */
  lemma MergeOutOfOrder(n: string, x: string, y: string)
    requires GoodName(n) && x != ""
    ensures var src := map[n := List([Str(x), Str(y)])];
      var s0, s1 := [Name(n), Idx(0)], [Name(n), Idx(1)];
      && Reading(src, KeyOf(s0)) == Some(Str(x))
      && Reading(Carry(map[], src, [KeyOf(s1), KeyOf(s0)], true).0, KeyOf(s0)) == Some(Str(""))
  {
    var src: Entries := map[n := List([Str(x), Str(y)])];
    var s0, s1 := [Name(n), Idx(0)], [Name(n), Idx(1)];
    var keys := [KeyOf(s1), KeyOf(s0)];
    AtTwo(Dict(src), Name(n), Idx(0));
    AtTwo(Dict(src), Name(n), Idx(1));
    ReadIsAt(src, s0);
    ReadIsAt(src, s1);
    HighSlotPads(n, Str(y));
    assert keys[..1] == [KeyOf(s1)] && keys[..1][..0] == [];
    assert !HasKey(map[], KeyOf(s1));
    assert Carry(map[], src, [], true) == (map[], None);
  }
}
