/** A key-value index seen as its keys in byte order, and the one operation scans are built on. */
module OrderedIndex {
  import opened Wrappers
  import opened Text

  type Byte = n: int | 0 <= n < 256

  type Key = seq<Byte>

  /** Lexicographic order of byte strings. */
  predicate Less(a: Key, b: Key) {
    b != [] && (a == [] || a[0] < b[0] || (a[0] == b[0] && Less(a[1..], b[1..])))
  }

  /** Less means: either a proper prefix, or the first different byte is the smaller one. */
  lemma {:induction false} LessExactly(a: Key, b: Key)
    ensures Less(a, b) <==> a < b || exists i: nat :: SmallerAt(a, b, i)
    decreases |a|
  {
    if a != [] && b != [] {
      if a[0] == b[0] {
        LessExactly(a[1..], b[1..]);
        LaterDecides(a, b);
      } else {
        FirstDecides(a, b);
      }
    }
  }

  predicate AtMost(a: Key, b: Key) {
    a == b || Less(a, b)
  }

  lemma {:induction false} LessIrreflexive(a: Key)
    ensures !Less(a, a)
  {
    if a != [] {
      LessIrreflexive(a[1..]);
    }
  }

  lemma {:induction false} LessTransitive(a: Key, b: Key, c: Key)
    requires Less(a, b) && Less(b, c)
    ensures Less(a, c)
  {
    if a != [] && a[0] == b[0] && b[0] == c[0] {
      LessTransitive(a[1..], b[1..], c[1..]);
    }
  }

  lemma AtMostTransitive(a: Key, b: Key, c: Key)
    requires AtMost(a, b) && AtMost(b, c)
    ensures AtMost(a, c)
  {
    if Less(a, b) && Less(b, c) {
      LessTransitive(a, b, c);
    }
  }

  /** A key is not below its prefixes. */
  lemma {:induction false} PrefixAtMost(p: Key, x: Key)
    requires p <= x
    ensures AtMost(p, x)
  {
    if p != [] {
      assert p[1..] <= x[1..];
      PrefixAtMost(p[1..], x[1..]);
      assert p == [p[0]] + p[1..] && x == [x[0]] + x[1..];
    }
  }

  /** Keys with a common prefix are contiguous, and start at the prefix. */
  lemma {:induction false} PrefixContiguous(p: Key, y: Key, x: Key)
    requires p <= x && AtMost(p, y) && AtMost(y, x)
    ensures p <= y
  {
    if p != [] && p != y && y != x {
      assert p[0] == x[0] == y[0];
      assert p[1..] <= x[1..];
      PrefixContiguous(p[1..], y[1..], x[1..]);
      assert p == [p[0]] + p[1..] && y == [y[0]] + y[1..];
    }
  }

  predicate Sorted(index: seq<Key>) {
    forall i, j :: 0 <= i < j < |index| ==> Less(index[i], index[j])
  }

  predicate Reaches(k: Key, start: Key, exclude: bool) {
    if exclude then Less(start, k) else AtMost(start, k)
  }

  /** Position of the first key at or after `start` (strictly after, with `exclude`). */
  function Position(index: seq<Key>, start: Key, exclude: bool): (i: nat)
    ensures i <= |index|
    ensures forall j :: 0 <= j < i ==> !Reaches(index[j], start, exclude)
    ensures i < |index| ==> Reaches(index[i], start, exclude)
  {
    PositionFrom(index, start, exclude, 0)
  }

  function PositionFrom(index: seq<Key>, start: Key, exclude: bool, from: nat): (i: nat)
    requires from <= |index|
    ensures from <= i <= |index|
    ensures forall j :: from <= j < i ==> !Reaches(index[j], start, exclude)
    ensures i < |index| ==> Reaches(index[i], start, exclude)
    decreases |index| - from
  {
    if from == |index| || Reaches(index[from], start, exclude) then from
    else PositionFrom(index, start, exclude, from + 1)
  }

  /** The index operation M0_IC_NEXT for one key; None is -ENOENT. */
  function Next(index: seq<Key>, start: Key, exclude: bool): Option<Key> {
    var i := Position(index, start, exclude);
    if i < |index| then Some(index[i]) else None
  }

  /** From a key of the index, the strictly next one is its neighbour. */
  lemma PositionAfter(index: seq<Key>, i: nat)
    requires Sorted(index) && i < |index|
    ensures Position(index, index[i], true) == i + 1
    ensures Position(index, index[i], false) == i
  {
    forall j | 0 <= j < |index| ensures Less(index[i], index[j]) <==> i < j {
      LessIrreflexive(index[i]);
      if j < i && Less(index[i], index[j]) {
        LessTransitive(index[i], index[j], index[i]);
      }
    }
    assert i + 1 < |index| ==> Reaches(index[i + 1], index[i], true);
    assert Reaches(index[i], index[i], false);
  }

  /** Everything from the found position on is at or after the start. */
  lemma FromPosition(index: seq<Key>, start: Key, j: nat)
    requires Sorted(index) && j < |index|
    ensures Position(index, start, false) <= j <==> AtMost(start, index[j])
  {
    var i := Position(index, start, false);
    if i < j && Less(start, index[i]) {
      LessTransitive(start, index[i], index[j]);
    }
  }
}
