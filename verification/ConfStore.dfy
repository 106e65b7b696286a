/** The configuration store: loaded payloads by index, and the operations across two of them. */
module ConfStore {
  import opened Wrappers
  import opened Tree
  import opened Keys
  import opened Access
  import opened Flatten
  import opened Payload
  import opened Transfer

  datatype ConfFault = NotLoaded(index: string) | Missing(key: string) | PayloadFault(fault: Fault)

  datatype Difference = Difference(added: set<string>, removed: set<string>, updated: seq<string>)

  /** Python's truth value, by which `merge` decides that a requested key is present. */
  predicate Truthy(v: Value) {
    match v
    case Null => false
    case Float(r) => r != 0.0
    case Str(s) => s != ""
    case Int(n) => n != 0
    case Dict(m) => m != map[]
    case List(l) => l != []
  }

  predicate Requestable(d: Entries, key: string) {
    GetKey(key, d).Ok? && Truthy(GetKey(key, d).value)
  }

  ghost predicate AddedKey(d1: Entries, d2: Entries, k: string) {
    HasKey(d2, k) && !HasKey(d1, k)
  }

  ghost predicate RemovedKey(d1: Entries, d2: Entries, k: string) {
    HasKey(d1, k) && !HasKey(d2, k)
  }

  ghost predicate UpdatedKey(d1: Entries, d2: Entries, k: string) {
    HasKey(d1, k) && HasKey(d2, k) && GetKey(k, d1) != GetKey(k, d2)
  }

  /** What `merge` raises for a requested key that reads no true value. */
  function Refusal(d: Entries, key: string): Option<ConfFault> {
    match GetKey(key, d)
    case Err(e) => Some(PayloadFault(e))
    case Ok(v) => if Truthy(v) then None else Some(Missing(key))
  }

  function FirstRefusal(d: Entries, keys: seq<string>): Option<ConfFault> {
    if keys == [] then None
    else if Refusal(d, keys[0]).Some? then Refusal(d, keys[0])
    else FirstRefusal(d, keys[1..])
  }

  /** Merging is refused for the first requested key that is not requestable, if there is one. */
  lemma {:induction false} RefusedAtFirst(d: Entries, keys: seq<string>, i: nat)
    requires i <= |keys| && forall j :: 0 <= j < i ==> Requestable(d, keys[j])
    requires i < |keys| ==> !Requestable(d, keys[i])
    ensures if i < |keys| then FirstRefusal(d, keys) == Refusal(d, keys[i]) != None else FirstRefusal(d, keys) == None
    decreases i
  {
    if i > 0 {
      assert Requestable(d, keys[0]);
      RefusedAtFirst(d, keys[1..], i - 1);
    }
  }

  /** `compare` reads the key in the first payload, then in the second. */
  predicate RaisesFirst(d1: Entries, d2: Entries, k: string, e: Fault) {
    GetKey(k, d1) == Err(e) || (GetKey(k, d1).Ok? && GetKey(k, d2) == Err(e))
  }

  // ----- what a request is refused for -----

  /** What Python's truth value counts as nothing. */
  const Nothings := [Null, Float(0.0), Str(""), Int(0), Dict(map[]), List([])]

  lemma RefusedIffNothing(d: Entries, key: string)
    ensures Refusal(d, key) ==
            match GetKey(key, d)
            case Err(e) => Some(PayloadFault(e))
            case Ok(v) => if v in Nothings then Some(Missing(key)) else None
  {
    assert forall v :: v in Nothings <==>
      v == Null || v == Float(0.0) || v == Str("") || v == Int(0) || v == Dict(map[]) || v == List([]);
  }

  /** A node that can be requested is there, and is not one of Python's nothings. */
  predicate Something(v: Value, s: Path) {
    At(v, s).Some? && At(v, s).value !in Nothings
  }

  /** The refusal of a printable key, from the nodes along its path. */
  lemma RefusalOfNode(d: Entries, s: Path)
    requires GoodSteps(s)
    ensures Refusal(d, KeyOf(s)) ==
            if exists k: nat :: LacksName(Dict(d), s, k) then Some(PayloadFault(KeyFault))
            else if IndexesNumber(Dict(d), s) then Some(PayloadFault(TypeFault))
            else if Something(Dict(d), s) then None
            else Some(Missing(KeyOf(s)))
  {
    RefusedIffNothing(d, KeyOf(s));
    ReadExactly(d, s);
  }

  lemma NodeReads(v: Value, s: Path)
    requires At(v, s).Some?
    ensures (forall k: nat :: !LacksName(v, s, k)) && !IndexesNumber(v, s)
  {
    forall k: nat | k < |s| ensures !LacksName(v, s, k) {
      assert s[..|s|] == s;
      NameIsThere(v, s, |s|, k);
    }
    if |s| > 1 {
      var front, last := s[..|s| - 1], s[|s| - 1];
      assert s == front + [last];
      AtConcat(v, front, [last]);
    }
  }

  ghost predicate AllGood(qs: seq<Path>) {
    forall n :: 0 <= n < |qs| ==> GoodSteps(qs[n])
  }

  /** A request is granted if and only if something is at every path, and else refused for the first with nothing. */
  lemma GrantedIffSomething(d: Entries, qs: seq<Path>, i: nat)
    requires AllGood(qs) && i <= |qs| && forall j :: 0 <= j < i ==> Something(Dict(d), qs[j])
    requires i < |qs| ==> !Something(Dict(d), qs[i])
    ensures FirstRefusal(d, KeysOf(qs)) ==
            if i == |qs| then None
            else if exists k: nat :: LacksName(Dict(d), qs[i], k) then Some(PayloadFault(KeyFault))
            else if IndexesNumber(Dict(d), qs[i]) then Some(PayloadFault(TypeFault))
            else Some(Missing(KeyOf(qs[i])))
  {
    var keys := KeysOf(qs);
    forall j | 0 <= j < |qs| && j <= i ensures Requestable(d, keys[j]) <==> Something(Dict(d), qs[j]) {
      RefusalOfNode(d, qs[j]);
      if Something(Dict(d), qs[j]) {
        NodeReads(Dict(d), qs[j]);
      }
    }
    RefusedAtFirst(d, keys, i);
    if i < |qs| {
      RefusalOfNode(d, qs[i]);
    }
  }

  /**
   Merging requested leaves between normal trees. It is refused for the first leaf that is `''` or 0; without such a
   leaf, the expected leaves result if and only if they fit and no padded slot is left over.
   */
  lemma MergeRequested(d: Entries, src: Entries, qs: seq<Path>, i: nat)
    requires NormalRoot(Dict(d)) && NormalRoot(Dict(src)) && AllLeaves(Dict(src), qs) && i <= |qs|
    requires forall j :: 0 <= j < i ==> LeafAt(Dict(src), qs[j]) !in [Some(Str("")), Some(Int(0))]
    requires i < |qs| ==> LeafAt(Dict(src), qs[i]) in [Some(Str("")), Some(Int(0))]
    ensures AllGood(qs)
    ensures FirstRefusal(src, KeysOf(qs)) == if i < |qs| then Some(Missing(KeyOf(qs[i]))) else None
    ensures i == |qs| ==>
      var (r, err) := Carry(d, src, KeysOf(qs), true);
      && (Carried(Dict(d), Dict(src), qs, true, Dict(r)) <==>
            AllFit(Dict(d), qs) && Tidy(Dict(d), Dict(src), qs, true))
      && (AllFit(Dict(d), qs) ==> err == None && NormalRoot(Dict(r)))
  {
    LeafKeysGood(Dict(src), qs);
    GrantedIffSomething(src, qs, i);
    if i < |qs| {
      NodeReads(Dict(src), qs[i]);
    } else {
      CarryExactlyWhen(d, src, qs, true);
    }
  }

  lemma LeafKeysGood(src: Value, qs: seq<Path>)
    requires NormalRoot(src) && AllLeaves(src, qs)
    ensures AllGood(qs)
  {
    forall n | 0 <= n < |qs| ensures GoodSteps(qs[n]) {
      LeavesAreGood(src, qs[n]);
    }
  }

  // ----- the store -----

  function AsConf(r: (Entries, Option<Fault>)): (Entries, Option<ConfFault>) {
    (r.0, if r.1.Some? then Some(PayloadFault(r.1.value)) else None)
  }

  class Store {
    var cache: map<string, KvPayload>

    /** Every index has a payload of its own. */
    ghost predicate Valid()
      reads this
    {
      forall i, j :: i in cache && j in cache && i != j ==> cache[i] != cache[j]
    }

    /** One pass of the loop shared by `copy` and `_merge`. */
    method CarryKey(dst: KvPayload, src: KvPayload, key: string, keep: bool) returns (err: Option<Fault>)
      modifies dst
      ensures (dst.data, err) == CarryOne(old(dst.data), old(src.data), key, keep)
    {
      if keep {
        var listed, _ := dst.Keys();
        if key in listed {
          return None;
        }
      }
      match src.Get(key)
      case Err(e) => err := Some(e);
      case Ok(v) => err := dst.Set(key, v);
    }

    /** The loop, between two different payloads. */
    method CarryKeys(dst: KvPayload, src: KvPayload, keys: seq<string>, keep: bool) returns (err: Option<Fault>)
      requires dst != src
      modifies dst
      ensures (dst.data, err) == Carry(old(dst.data), old(src.data), keys, keep)
    {
      err := None;
      for i := 0 to |keys|
        invariant (dst.data, None) == Carry(old(dst.data), old(src.data), keys[..i], keep)
        invariant err == None
      {
        CarryNext(old(dst.data), old(src.data), keys, i, keep);
        err := CarryKey(dst, src, keys[i], keep);
        if err.Some? {
          return;
        }
      }
      assert keys[..|keys|] == keys;
    }

    /** The loop when source and destination are one payload. */
    method CarryWithin(dst: KvPayload, keys: seq<string>, keep: bool) returns (err: Option<Fault>)
      modifies dst
      ensures (dst.data, err) == CarrySelf(old(dst.data), keys, keep)
    {
      err := None;
      for i := 0 to |keys|
        invariant (dst.data, None) == CarrySelf(old(dst.data), keys[..i], keep)
        invariant err == None
      {
        CarrySelfNext(old(dst.data), keys, i, keep);
        err := CarryKey(dst, dst, keys[i], keep);
        if err.Some? {
          return;
        }
      }
      assert keys[..|keys|] == keys;
    }

    /** `copy`: all keys of the source, unless the caller lists some. */
    method Copy(srcIndex: string, dstIndex: string, keyList: Option<seq<string>>)
      returns (err: Option<ConfFault>, ghost keys: seq<string>, ghost ps: seq<Path>)
      requires Valid()
      modifies if dstIndex in cache then {cache[dstIndex]} else {}
      ensures srcIndex !in cache ==> err == Some(NotLoaded(srcIndex))
      ensures srcIndex in cache && dstIndex !in cache ==> err == Some(NotLoaded(dstIndex))
      ensures srcIndex in cache && dstIndex in cache ==>
        && (keyList.Some? ==> keys == keyList.value)
        && (keyList.None? ==> NoDup(keys) && forall k :: k in keys <==> HasKey(old(cache[srcIndex].data), k))
        && (keyList.None? && NormalRoot(Dict(old(cache[srcIndex].data))) ==>
              Enumerates(Dict(old(cache[srcIndex].data)), ps) && (forall i :: 0 <= i < |ps| ==> ps[i] != []) &&
              keys == KeysOf(ps))
        && (srcIndex != dstIndex ==>
              (cache[dstIndex].data, err) ==
              AsConf(Carry(old(cache[dstIndex].data), old(cache[srcIndex].data), keys, false)))
        && (srcIndex == dstIndex ==>
              (cache[dstIndex].data, err) == AsConf(CarrySelf(old(cache[dstIndex].data), keys, false)))
    {
      keys, ps := [], [];
      if srcIndex !in cache {
        return Some(NotLoaded(srcIndex)), keys, ps;
      }
      if dstIndex !in cache {
        return Some(NotLoaded(dstIndex)), keys, ps;
      }
      var list;
      match keyList {
        case Some(l) => list := l;
        case None => list, ps := cache[srcIndex].Keys();
      }
      keys := list;
      var e: Option<Fault>;
      if srcIndex != dstIndex {
        e := CarryKeys(cache[dstIndex], cache[srcIndex], list, false);
      } else {
        e := CarryWithin(cache[dstIndex], list, false);
      }
      err := if e.Some? then Some(PayloadFault(e.value)) else None;
    }

    /** `merge`: all keys of the source, unless the caller lists some, each of which must read true there. */
    method Merge(dstIndex: string, srcIndex: string, requested: Option<seq<string>>)
      returns (err: Option<ConfFault>, ghost keys: seq<string>, ghost ps: seq<Path>)
      requires Valid()
      modifies if dstIndex in cache then {cache[dstIndex]} else {}
      ensures srcIndex !in cache ==> err == Some(NotLoaded(srcIndex))
      ensures srcIndex in cache && dstIndex !in cache ==> err == Some(NotLoaded(dstIndex))
      ensures srcIndex in cache && dstIndex in cache ==>
        var d, s := old(cache[dstIndex].data), old(cache[srcIndex].data);
        && (requested.None? ==> NoDup(keys) && forall k :: k in keys <==> HasKey(s, k))
        && (requested.None? && NormalRoot(Dict(s)) ==>
              Enumerates(Dict(s), ps) && (forall i :: 0 <= i < |ps| ==> ps[i] != []) && keys == KeysOf(ps))
        && (requested.Some? ==> keys == requested.value)
        && var refusal := if requested.Some? then FirstRefusal(s, keys) else None;
        && (cache[dstIndex].data, err) ==
           if refusal.Some? then (d, refusal)
           else AsConf(if srcIndex != dstIndex then Carry(d, s, keys, true) else CarrySelf(d, keys, true))
    {
      keys, ps := [], [];
      if srcIndex !in cache {
        return Some(NotLoaded(srcIndex)), keys, ps;
      }
      if dstIndex !in cache {
        return Some(NotLoaded(dstIndex)), keys, ps;
      }
      var list;
      match requested {
        case None => list, ps := cache[srcIndex].Keys();
        case Some(l) =>
          list := l;
          keys := l;
          for i := 0 to |l|
            invariant FirstRefusal(cache[srcIndex].data, l) == FirstRefusal(cache[srcIndex].data, l[i..])
          {
            assert l[i..][1..] == l[i + 1..];
            match cache[srcIndex].Get(l[i])
            case Err(e) => return Some(PayloadFault(e)), keys, ps;
            case Ok(v) =>
              if !Truthy(v) {
                return Some(Missing(l[i])), keys, ps;
              }
          }
      }
      keys := list;
      var e: Option<Fault>;
      if srcIndex != dstIndex {
        e := CarryKeys(cache[dstIndex], cache[srcIndex], list, true);
      } else {
        e := CarryWithin(cache[dstIndex], list, true);
      }
      err := if e.Some? then Some(PayloadFault(e.value)) else None;
    }

    /** `compare`: keys only in the second payload, keys only in the first, keys in both that read differently. */
    method Compare(index1: string, index2: string) returns (r: Result<Difference, ConfFault>)
      ensures index1 !in cache ==> r == Err(NotLoaded(index1))
      ensures index1 in cache && index2 !in cache ==> r == Err(NotLoaded(index2))
      ensures index1 in cache && index2 in cache ==>
        var d1, d2 := cache[index1].data, cache[index2].data;
        && (NormalRoot(Dict(d1)) && NormalRoot(Dict(d2)) ==> r.Ok?)
        && (r.Ok? ==> forall k ::
              && (k in r.value.added <==> AddedKey(d1, d2, k))
              && (k in r.value.removed <==> RemovedKey(d1, d2, k))
              && (k in r.value.updated <==> UpdatedKey(d1, d2, k)))
        && (r.Ok? ==> NoDup(r.value.updated))
        && (r.Ok? <==> forall k :: HasKey(d1, k) && HasKey(d2, k) ==> GetKey(k, d1).Ok? && GetKey(k, d2).Ok?)
        && (r.Err? ==>
              r.error.PayloadFault? &&
              exists k :: HasKey(d1, k) && HasKey(d2, k) && RaisesFirst(d1, d2, k, r.error.fault))
    {
      if index1 !in cache {
        return Err(NotLoaded(index1));
      }
      if index2 !in cache {
        return Err(NotLoaded(index2));
      }
      var p1, p2 := cache[index1], cache[index2];
      var keys1, _ := p1.Keys();
      var keys2, _ := p2.Keys();
      var removed := set k | k in keys1 && k !in keys2;
      var added := set k | k in keys2 && k !in keys1;
      if NormalRoot(Dict(p1.data)) && NormalRoot(Dict(p2.data)) {
        forall k | HasKey(p1.data, k) && HasKey(p2.data, k)
          ensures GetKey(k, p1.data).Ok? && GetKey(k, p2.data).Ok?
        {
          KeyReads(p1.data, k);
          KeyReads(p2.data, k);
        }
      }
      var updated := Differing(p1, p2, keys1, removed);
      r := match updated
        case Ok(ks) => Ok(Difference(added, removed, ks))
        case Err(e) => Err(PayloadFault(e));
    }

    /** The filter of `compare`: the keys, other than those to skip, that read differently. */
    method Differing(p1: KvPayload, p2: KvPayload, keys: seq<string>, skip: set<string>)
      returns (r: Result<seq<string>, Fault>)
      ensures r.Ok? ==> NoDup(keys) ==> NoDup(r.value)
      ensures r.Ok? ==> forall k :: k in r.value <==> k in keys && k !in skip && p1.Get(k) != p2.Get(k)
      ensures r.Ok? <==> forall k :: k in keys && k !in skip ==> p1.Get(k).Ok? && p2.Get(k).Ok?
      ensures r.Err? ==> exists k :: k in keys && k !in skip && RaisesFirst(p1.data, p2.data, k, r.error)
    {
      var differing := [];
      for i := 0 to |keys|
        invariant forall k :: k in differing <==> k in keys[..i] && k !in skip && p1.Get(k) != p2.Get(k)
        invariant forall k :: k in keys[..i] && k !in skip ==> p1.Get(k).Ok? && p2.Get(k).Ok?
        invariant NoDup(keys) ==> NoDup(differing)
      {
        var k := keys[i];
        assert keys[..i + 1] == keys[..i] + [k];
        if k !in skip {
          assert k in keys;
          var v1, v2 := p1.Get(k), p2.Get(k);
          if v1.Err? {
            return Err(v1.error);
          }
          if v2.Err? {
            return Err(v2.error);
          }
          if v1 != v2 {
            if NoDup(keys) {
              assert k !in keys[..i];
            }
            differing := differing + [k];
          }
        }
      }
      assert keys[..|keys|] == keys;
      r := Ok(differing);
    }
  }

  /** Carrying one key more. */
  lemma CarryNext(d: Entries, src: Entries, keys: seq<string>, i: nat, keep: bool)
    requires i < |keys|
    ensures var r := Carry(d, src, keys[..i], keep);
      r.1 == None ==> Carry(d, src, keys[..i + 1], keep) == CarryOne(r.0, src, keys[i], keep)
    ensures Carry(d, src, keys[..i + 1], keep).1.Some? ==>
              Carry(d, src, keys, keep) == Carry(d, src, keys[..i + 1], keep)
  {
    assert keys[..i + 1][..i] == keys[..i];
    CarryStuck(d, src, keys, i + 1, keep);
  }

  lemma CarrySelfNext(d: Entries, keys: seq<string>, i: nat, keep: bool)
    requires i < |keys|
    ensures var r := CarrySelf(d, keys[..i], keep);
      r.1 == None ==> CarrySelf(d, keys[..i + 1], keep) == CarryOne(r.0, r.0, keys[i], keep)
    ensures CarrySelf(d, keys[..i + 1], keep).1.Some? ==> CarrySelf(d, keys, keep) == CarrySelf(d, keys[..i + 1], keep)
  {
    assert keys[..i + 1][..i] == keys[..i];
    CarrySelfStuck(d, keys, i + 1, keep);
  }

  lemma {:induction false} CarrySelfStuck(d: Entries, keys: seq<string>, i: nat, keep: bool)
    requires i <= |keys|
    ensures CarrySelf(d, keys[..i], keep).1.Some? ==> CarrySelf(d, keys, keep) == CarrySelf(d, keys[..i], keep)
    decreases |keys|
  {
    if i < |keys| {
      CarrySelfStuck(d, keys[..|keys| - 1], i, keep);
      assert keys[..|keys| - 1][..i] == keys[..i];
    } else {
      assert keys[..i] == keys;
    }
  }

  /** An exception ends the loop. */
  lemma {:induction false} CarryStuck(d: Entries, src: Entries, keys: seq<string>, i: nat, keep: bool)
    requires i <= |keys|
    ensures Carry(d, src, keys[..i], keep).1.Some? ==> Carry(d, src, keys, keep) == Carry(d, src, keys[..i], keep)
    decreases |keys|
  {
    if i < |keys| {
      CarryStuck(d, src, keys[..|keys| - 1], i, keep);
      assert keys[..|keys| - 1][..i] == keys[..i];
    } else {
      assert keys[..i] == keys;
    }
  }

  lemma KeyReads(d: Entries, k: string)
    requires NormalRoot(Dict(d))
    ensures HasKey(d, k) ==> Reading(d, k).Some?
  {
    if HasKey(d, k) {
      var s :| Flat(Dict(d), s) && KeyOf(s) == k;
      FlatIsLeaf(Dict(d), s);
      LeavesAreGood(Dict(d), s);
      ReadIsAt(d, s);
    }
  }

  /** What `compare` reports, from the leaves. */
  lemma CompareByLeaves(d1: Entries, d2: Entries, t: Path)
    requires NormalRoot(Dict(d1)) && NormalRoot(Dict(d2)) && GoodSteps(t)
    ensures AddedKey(d1, d2, KeyOf(t)) <==> LeafAt(Dict(d1), t) == None && LeafAt(Dict(d2), t) != None
    ensures RemovedKey(d1, d2, KeyOf(t)) <==> LeafAt(Dict(d1), t) != None && LeafAt(Dict(d2), t) == None
    ensures UpdatedKey(d1, d2, KeyOf(t)) <==>
            LeafAt(Dict(d1), t) != None && LeafAt(Dict(d2), t) != None && LeafAt(Dict(d1), t) != LeafAt(Dict(d2), t)
  {
    HasKeyIsLeaf(d1, t);
    HasKeyIsLeaf(d2, t);
    ReadIsAt(d1, t);
    ReadIsAt(d2, t);
  }

  /** `compare` finds no difference exactly when the trees are equal. */
  lemma NoDifferenceIffEqual(d1: Entries, d2: Entries)
    requires NormalRoot(Dict(d1)) && NormalRoot(Dict(d2))
    ensures (forall k :: !AddedKey(d1, d2, k) && !RemovedKey(d1, d2, k) && !UpdatedKey(d1, d2, k)) <==> d1 == d2
  {
    if forall k :: !AddedKey(d1, d2, k) && !RemovedKey(d1, d2, k) && !UpdatedKey(d1, d2, k) {
      forall s ensures LeafAt(Dict(d1), s) == LeafAt(Dict(d2), s) {
        if Leaf(Dict(d1), s) || Leaf(Dict(d2), s) {
          if Leaf(Dict(d1), s) {
            LeavesAreGood(Dict(d1), s);
          } else {
            LeavesAreGood(Dict(d2), s);
          }
          var k := KeyOf(s);
          HasKeyIsLeaf(d1, s);
          HasKeyIsLeaf(d2, s);
          assert !AddedKey(d1, d2, k) && !RemovedKey(d1, d2, k) && !UpdatedKey(d1, d2, k);
          ReadIsAt(d1, s);
          ReadIsAt(d2, s);
        }
      }
      DictLeavesDetermine(Dict(d1), Dict(d2));
    }
  }
}
