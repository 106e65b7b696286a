/** `add_num_keys`: every dict gets, for each list it holds, an entry with that list's length. */
module NumKeys {
  import opened Wrappers
  import opened Tree

  function NumName(n: string): string {
    "num_" + n
  }

  function NumNames(m: map<string, Value>): set<string> {
    set n | n in m && m[n].List? :: NumName(n)
  }

  function NumEntries(m: map<string, Value>): map<string, Value> {
    map k | k in NumNames(m) :: Length(m, k[4..])
  }

  function Length(m: map<string, Value>, n: string): Value {
    if n in m && m[n].List? then Int(|m[n].l|) else Null
  }

  /** The value after `_add_num_keys`: children first, then the new entries over the old ones. */
  function AddNum(v: Value): Value {
    match v
    case Dict(m) => Dict((map n | n in m :: AddNum(m[n])) + NumEntries(m))
    case List(l) => List(seq(|l|, i requires 0 <= i < |l| => AddNum(l[i])))
    case _ => v
  }

  method AddNumRec(v: Value) returns (r: Value)
    ensures r == AddNum(v)
    decreases v, 1
  {
    match v
    case Dict(m) => r := AddNumDict(v);
    case List(l) => r := AddNumList(v);
    case _ => r := v;
  }

  /** The loop over a dict, and the update after it. */
  method AddNumDict(v: Value) returns (r: Value)
    requires v.Dict?
    ensures r == AddNum(v)
    decreases v, 0
  {
    var m := v.m;
    var data := m;
    var numKeys := map[];
    var todo := m.Keys;
    while todo != {}
      invariant todo <= m.Keys && data.Keys == m.Keys
      invariant forall n :: n in m ==> data[n] == if n in todo then m[n] else AddNum(m[n])
      invariant numKeys == NumEntries(m - todo)
    {
      var n :| n in todo;
      if m[n].List? {
        numKeys := numKeys[NumName(n) := Int(|m[n].l|)];
      }
      NumEntriesOneMore(m, todo, n);
      if m[n].Dict? || m[n].List? {
        var c := AddNumRec(m[n]);
        data := data[n := c];
      }
      todo := todo - {n};
    }
    assert m - todo == m;
    assert data == map n | n in m :: AddNum(m[n]);
    r := Dict(data + numKeys);
  }

  method AddNumList(v: Value) returns (r: Value)
    requires v.List?
    ensures r == AddNum(v)
    decreases v, 0
  {
    var l := v.l;
    var data := l;
    for i := 0 to |l|
      invariant |data| == |l|
      invariant forall k :: 0 <= k < |l| ==> data[k] == if k < i then AddNum(l[k]) else l[k]
    {
      var c := AddNumRec(l[i]);
      data := data[i := c];
    }
    r := List(data);
    assert data == AddNum(v).l;
  }

  lemma NumEntriesOneMore(m: map<string, Value>, todo: set<string>, n: string)
    requires n in todo && todo <= m.Keys
    ensures NumEntries(m - (todo - {n})) ==
            if m[n].List? then NumEntries(m - todo)[NumName(n) := Int(|m[n].l|)] else NumEntries(m - todo)
  {
    NumEntriesGrow(m - todo, n, m[n]);
    assert m - (todo - {n}) == (m - todo)[n := m[n]];
  }

  lemma NumEntriesGrow(m: map<string, Value>, n: string, v: Value)
    requires n !in m
    ensures NumEntries(m[n := v]) == if v.List? then NumEntries(m)[NumName(n) := Int(|v.l|)] else NumEntries(m)
  {
    NumEntriesAre(m);
    NumEntriesAre(m[n := v]);
    NumNameDistinct(n);
    forall k | k in m[n := v] && m[n := v][k].List? ensures NumName(k)[4..] == k {
      NumNameDistinct(k);
    }
    assert NumNames(m[n := v]) == NumNames(m) + if v.List? then {NumName(n)} else {};
    forall k | k in NumNames(m) ensures NumEntries(m[n := v])[k] == NumEntries(m)[k] {
      var j :| j in m && m[j].List? && NumName(j) == k;
      assert m[n := v][j] == m[j];
    }
  }

  lemma NumNameDistinct(n: string)
    ensures NumName(n)[4..] == n
    ensures forall k :: NumName(k) == NumName(n) ==> k == n
  {
    forall k | NumName(k) == NumName(n) ensures k == n {
      assert NumName(k)[4..] == k;
    }
  }

  lemma NumEntriesAre(m: map<string, Value>)
    ensures forall n :: n in m && m[n].List? ==>
      NumName(n) in NumEntries(m) && NumEntries(m)[NumName(n)] == Int(|m[n].l|)
    ensures forall k :: k in NumEntries(m) ==> NumEntries(m)[k].Int?
  {
    forall n | n in m && m[n].List?
      ensures NumName(n) in NumEntries(m) && NumEntries(m)[NumName(n)] == Int(|m[n].l|)
    {
      NumNameDistinct(n);
    }
    forall k | k in NumEntries(m) ensures NumEntries(m)[k].Int? {
      var n :| n in m && m[n].List? && NumName(n) == k;
      NumNameDistinct(n);
    }
  }

  /** What a dict holds under `k` afterwards. */
  lemma AddNumEntry(m: map<string, Value>, k: string)
    ensures k in AddNum(Dict(m)).m <==> k in m || k in NumNames(m)
    ensures k in NumNames(m) ==> AddNum(Dict(m)).m[k].Int?
    ensures k in m && k !in NumNames(m) ==> AddNum(Dict(m)).m[k] == AddNum(m[k])
  {
    NumEntriesAre(m);
  }

  /** Every list a dict still holds is counted by the entry beside it. */
  predicate Counted(v: Value) {
    v.Dict? ==> forall n :: n in v.m && v.m[n].List? ==>
      NumName(n) in v.m && v.m[NumName(n)] == Int(|v.m[n].l|)
  }

  lemma CountedHere(v: Value)
    ensures Counted(AddNum(v))
  {
    if v.Dict? {
      var r := AddNum(v).m;
      forall n | n in r && r[n].List? ensures NumName(n) in r && r[NumName(n)] == Int(|r[n].l|) {
        AddNumEntry(v.m, n);
        assert v.m[n].List? && |r[n].l| == |v.m[n].l|;
        NumEntriesAre(v.m);
      }
    }
  }

  /** Afterwards every dict, at any depth, counts the lists it holds. */
  lemma {:induction false} CountedEverywhere(v: Value, s: Path)
    ensures At(AddNum(v), s).Some? ==> Counted(At(AddNum(v), s).value)
    decreases |s|
  {
    if s == [] {
      CountedHere(v);
    } else if Has(AddNum(v), s[0]) {
      match s[0]
      case Name(n) =>
        AddNumEntry(v.m, n);
        if n !in NumNames(v.m) {
          CountedEverywhere(v.m[n], s[1..]);
        }
      case Idx(i) => CountedEverywhere(v.l[i], s[1..]);
    }
  }

  /** `n` is the name of an entry that `add_num_keys` writes into the dict `m`. */
  predicate Written(m: map<string, Value>, n: string) {
    exists k :: k in m && m[k].List? && n == "num_" + k
  }

  /** `s` passes through, or ends at, an entry that `add_num_keys` writes. */
  predicate Overwritten(v: Value, s: Path)
    decreases |s|
  {
    s != [] && ((v.Dict? && s[0].Name? && Written(v.m, s[0].name)) ||
                (Has(v, s[0]) && Overwritten(Child(v, s[0]), s[1..])))
  }

  /** `w` is what `add_num_keys` may make of the node `v`: only dicts change, and only by the counts of their lists. */
  ghost predicate Recounted(v: Value, w: Value) {
    match v
    case Dict(m) =>
      && w.Dict? && (forall n :: n in w.m <==> n in m || Written(m, n))
      && forall n :: n in m && m[n].List? ==> w.m["num_" + n] == Int(|m[n].l|)
    case List(l) => w.List? && |w.l| == |l|
    case _ => w == v
  }

  lemma WrittenIsNumName(m: map<string, Value>, n: string)
    ensures Written(m, n) <==> n in NumNames(m)
  {
    if Written(m, n) {
      var k :| k in m && m[k].List? && n == "num_" + k;
      assert NumName(k) == n;
    }
  }

  lemma RecountedHere(v: Value)
    ensures Recounted(v, AddNum(v))
  {
    if v.Dict? {
      var w := AddNum(v).m;
      NumEntriesAre(v.m);
      forall n ensures n in w <==> n in v.m || Written(v.m, n) {
        AddNumEntry(v.m, n);
        WrittenIsNumName(v.m, n);
      }
      forall n | n in v.m && v.m[n].List? ensures "num_" + n in w && w["num_" + n] == Int(|v.m[n].l|) {
        assert NumName(n) == "num_" + n;
      }
    }
  }

  lemma {:induction false} OthersStayInPlace(v: Value, s: Path)
    requires !Overwritten(v, s)
    ensures At(AddNum(v), s) == if At(v, s).Some? then Some(AddNum(At(v, s).value)) else None
    decreases |s|
  {
    if s != [] {
      if v.Dict? && s[0].Name? {
        AddNumEntry(v.m, s[0].name);
        WrittenIsNumName(v.m, s[0].name);
      }
      if Has(v, s[0]) {
        OthersStayInPlace(Child(v, s[0]), s[1..]);
      }
    }
  }

  /** At every other path there is afterwards what there was before, up to the new entries in it. */
  lemma {:induction false} OthersUnchanged(v: Value, s: Path)
    requires !Overwritten(v, s)
    ensures At(AddNum(v), s).Some? <==> At(v, s).Some?
    ensures At(v, s).Some? ==> Recounted(At(v, s).value, At(AddNum(v), s).value)
  {
    OthersStayInPlace(v, s);
    if At(v, s).Some? {
      RecountedHere(At(v, s).value);
    }
  }

  /** A written entry counts a list, in the result as before; any other entry has been done already. */
  lemma AddNumTwiceEntry(m: map<string, Value>, k: string)
    requires k in m ==> AddNum(AddNum(m[k])) == AddNum(m[k])
    ensures var r := AddNum(Dict(m)).m;
      (k in AddNum(Dict(r)).m <==> k in r) && (k in r ==> AddNum(Dict(r)).m[k] == r[k])
  {
    var r := AddNum(Dict(m)).m;
    AddNumEntry(m, k);
    AddNumEntry(r, k);
    if k in NumNames(r) {
      var n :| n in r && r[n].List? && NumName(n) == k;
      CountedHere(Dict(m));
      NumEntriesAre(r);
    }
  }

  lemma AddNumTwiceDict(m: map<string, Value>)
    requires forall k :: k in m ==> AddNum(AddNum(m[k])) == AddNum(m[k])
    ensures AddNum(AddNum(Dict(m))) == AddNum(Dict(m))
  {
    var r := AddNum(Dict(m)).m;
    var rr := AddNum(Dict(r)).m;
    forall k ensures k in rr <==> k in r {
      AddNumTwiceEntry(m, k);
    }
    forall k | k in r ensures rr[k] == r[k] {
      AddNumTwiceEntry(m, k);
    }
    SameEntries(rr, r);
  }

  lemma SameEntries(a: map<string, Value>, b: map<string, Value>)
    requires forall k :: k in a <==> k in b
    requires forall k :: k in b ==> a[k] == b[k]
    ensures a == b
  {
  }

  /** A second call changes nothing, even where a written entry replaced a list. */
  lemma {:induction false} AddNumTwice(v: Value)
    ensures AddNum(AddNum(v)) == AddNum(v)
    decreases v
  {
    match v
    case Dict(m) =>
      forall k | k in m ensures AddNum(AddNum(m[k])) == AddNum(m[k]) {
        AddNumTwice(m[k]);
      }
      AddNumTwiceDict(m);
    case List(l) =>
      forall i | 0 <= i < |l| ensures AddNum(AddNum(l[i])) == AddNum(l[i]) {
        AddNumTwice(l[i]);
      }
    case _ =>
  }
}
