/** What several modules say about characters and about joining texts and other sequences. */
module Text {

  predicate IsDigit(c: char) {
    '0' <= c <= '9'
  }

  lemma ConcatAssociates<T>(a: seq<T>, b: seq<T>, c: seq<T>)
    ensures a + b + c == a + (b + c)
  {
  }

  /** `a` and `b` agree up to position `i`, where `a` has the smaller number. */
  predicate SmallerAt(a: seq<int>, b: seq<int>, i: nat) {
    i < |a| && i < |b| && a[..i] == b[..i] && a[i] < b[i]
  }

  lemma FirstDecides(a: seq<int>, b: seq<int>)
    requires a != [] && b != [] && a[0] != b[0]
    ensures !(a <= b) && ((exists i: nat :: SmallerAt(a, b, i)) <==> a[0] < b[0])
  {
    forall i: nat | 0 < i < |a| && i < |b| ensures a[..i] != b[..i] {
      assert a[..i][0] != b[..i][0];
    }
    if a[0] < b[0] {
      assert SmallerAt(a, b, 0);
    }
  }

  lemma LaterDecides(a: seq<int>, b: seq<int>)
    requires a != [] && b != [] && a[0] == b[0]
    ensures a < b <==> a[1..] < b[1..]
    ensures (exists i: nat :: SmallerAt(a, b, i)) <==> exists i: nat :: SmallerAt(a[1..], b[1..], i)
  {
    assert a == [a[0]] + a[1..] && b == [b[0]] + b[1..];
    if i: nat :| SmallerAt(a, b, i) {
      assert a[1..][..i - 1] == a[..i][1..] && b[1..][..i - 1] == b[..i][1..];
      assert SmallerAt(a[1..], b[1..], i - 1);
    }
    if i: nat :| SmallerAt(a[1..], b[1..], i) {
      assert a[..i + 1] == [a[0]] + a[1..][..i] && b[..i + 1] == [b[0]] + b[1..][..i];
      assert SmallerAt(a, b, i + 1);
    }
  }
}
