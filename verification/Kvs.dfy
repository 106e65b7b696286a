/** The scans of the key-value store over its ordered index: by pattern, for a prefix, and by iterator. */
module Kvs {
  import opened Wrappers
  import opened OrderedIndex

  const ENOENT := 2

  // ----- C strings in the index -----

  /** String keys are stored, and looked up, with their terminator. */
  function Stored(s: Key): Key {
    s + [0]
  }

  predicate NulFree(s: Key) {
    0 !in s
  }

  /** The terminator does not disturb the order of strings. */
  lemma {:induction false} StoredOrder(a: Key, b: Key)
    requires NulFree(a) && NulFree(b)
    ensures Less(Stored(a), Stored(b)) <==> Less(a, b)
    ensures Stored(a) == Stored(b) <==> a == b
  {
    assert Stored(a)[..|a|] == a && Stored(b)[..|b|] == b;
    if a == [] {
      if b != [] {
        assert b[0] != 0;
      }
    } else if b == [] {
      assert a[0] != 0;
    } else {
      assert Stored(a)[1..] == Stored(a[1..]) && Stored(b)[1..] == Stored(b[1..]);
      StoredOrder(a[1..], b[1..]);
    }
  }

  function StoredIndex(strings: seq<Key>): (r: seq<Key>)
    ensures |r| == |strings| && forall i :: 0 <= i < |strings| ==> r[i] == Stored(strings[i])
  {
    seq(|strings|, i requires 0 <= i < |strings| => Stored(strings[i]))
  }

  /** So a scan of terminated keys can be read as a scan of the strings themselves. */
  lemma {:induction false} StoredPosition(strings: seq<Key>, k: Key, exclude: bool)
    requires NulFree(k) && forall i :: 0 <= i < |strings| ==> NulFree(strings[i])
    ensures Position(StoredIndex(strings), Stored(k), exclude) == Position(strings, k, exclude)
  {
    forall i | 0 <= i < |strings|
      ensures Reaches(StoredIndex(strings)[i], Stored(k), exclude) <==> Reaches(strings[i], k, exclude)
    {
      StoredOrder(k, strings[i]);
    }
  }

  // ----- pattern scan -----

  /** The scan between two passes of its outer loop, and its end. */
  datatype Scan =
    | Running(myk: Key, exclude: bool, startp: bool, calls: seq<Key>)
    | Done(rc: int, calls: seq<Key>)

  function Repeat(t: Key, n: nat): (r: seq<Key>)
    ensures |r| == n
  {
    seq(n, _ => t)
  }

  lemma RepeatMore(calls: seq<Key>, t: Key, n: nat)
    ensures calls + Repeat(t, n) + [t] == calls + Repeat(t, n + 1)
  {
  }

  /** The calls for `n` keys from position `from` on, where `refusals` says how often each of them is refused. */
  function Heard(index: seq<Key>, from: nat, refusals: seq<nat>, n: nat): seq<Key>
    requires n <= |refusals| && from + |refusals| <= |index|
  {
    if n == 0 then [] else
      Heard(index, from, refusals, n - 1) + Repeat(index[from + n - 1], refusals[n - 1] + 1)
  }

  /**
   A call of `m0kvs_pattern`: the strings in the index, the start key, the pattern and the callback. What the
   callback answers for a key may depend on all the keys it was called on before.
   */
  datatype Job = Job(index: seq<Key>, k: Key, matches: Key -> bool, cb: (seq<Key>, Key) -> bool) {

    /** One pass: fetch the next key, match it, call back. A callback that answers false leaves the
        position as it was. */
    function Pass(st: Scan): Scan {
      match st
      case Done(_, _) => st
      case Running(myk, exclude, startp, calls) =>
        match Next(index, myk, exclude)
        case None => Done(if startp then 0 else -ENOENT, calls)
        case Some(t) =>
          if matches(t) then
            if cb(calls, t) then Running(t, true, true, calls + [t])
            else Running(myk, exclude, startp, calls + [t])
          else if startp then Done(0, calls)
          else Running(t, true, false, calls)
    }

    function Passes(n: nat): Scan {
      if n == 0 then Running(k, false, false, []) else Pass(Passes(n - 1))
    }

    predicate EndedAfter(n: nat) {
      Passes(n).Done?
    }

    predicate EndsWith(n: nat, rc: int, calls: seq<Key>) {
      Passes(n) == Done(rc, calls)
    }

    ghost predicate Ends() {
      exists n: nat :: EndedAfter(n)
    }

    /** First position from `i` on whose key matches (does not match). */
    function Seek(want: bool, i: nat): (j: nat)
      requires i <= |index|
      ensures i <= j <= |index|
      ensures forall n :: i <= n < j ==> matches(index[n]) != want
      ensures j < |index| ==> matches(index[j]) == want
      decreases |index| - i
    {
      if i == |index| || matches(index[i]) == want then i else Seek(want, i + 1)
    }

    function First(): (i: nat)
      ensures i <= |index|
    {
      Position(index, k, false)
    }

    /** The first maximal run of matching keys at or after the start is `index[From()..To()]`. */
    function From(): (i: nat)
      ensures First() <= i <= |index|
    {
      Seek(true, First())
    }

    function To(): (i: nat)
      ensures From() <= i <= |index|
    {
      Seek(false, From())
    }

    /** After the calls so far, the callback refuses `t` exactly `m` times and then accepts it. */
    predicate AcceptsAfter(calls: seq<Key>, t: Key, m: nat) {
      (forall j :: 0 <= j < m ==> !cb(calls + Repeat(t, j), t)) && cb(calls + Repeat(t, m), t)
    }

    predicate AnswersAt(from: nat, refusals: seq<nat>, i: nat)
      requires i < |refusals| && from + |refusals| <= |index|
    {
      AcceptsAfter(Heard(index, from, refusals, i), index[from + i], refusals[i])
    }

    /** So it does with the keys from position `from` on, one after the other. */
    predicate Answers(from: nat, refusals: seq<nat>)
      requires from + |refusals| <= |index|
    {
      forall i :: 0 <= i < |refusals| ==> AnswersAt(from, refusals, i)
    }

    predicate AnswersAll(refusals: seq<nat>) {
      |refusals| == To() - From() && Answers(From(), refusals)
    }

    /** The calls for the whole run. */
    function HeardAll(refusals: seq<nat>): seq<Key>
      requires |refusals| == To() - From()
    {
      Heard(index, From(), refusals, |refusals|)
    }

    /** The callback accepts every key of the run in the end. */
    ghost predicate Accepts() {
      exists refusals :: AnswersAll(refusals)
    }

    /** `st` is about to fetch the key at position `at`, after these calls, where the run starts at `from`. */
    predicate Fetching(st: Scan, from: nat, at: nat, calls: seq<Key>) {
      && st.Running? && st.calls == calls && (st.startp <==> from < at)
      && Next(index, st.myk, st.exclude) == KeyAt(index, at)
    }

    predicate MatchAt(at: nat) {
      at < |index| && matches(index[at])
    }
  }

  function KeyAt(index: seq<Key>, at: nat): Option<Key> {
    if at < |index| then Some(index[at]) else None
  }

  /**
   `m0kvs_pattern`, whose passes are those of the job, where they come to an end. The callback is called for
   exactly the keys of the first run of matches in order, for each as often as it takes until it accepts, and the
   result is -ENOENT exactly when there is none.
   */
  method Pattern(job: Job) returns (rc: int, calls: seq<Key>)
    requires Sorted(job.index) && job.Ends()
    ensures exists n: nat :: job.EndsWith(n, rc, calls)
    ensures exists refusals :: job.AnswersAll(refusals) && calls == job.HeardAll(refusals)
    ensures rc == if job.From() == |job.index| then -ENOENT else 0
  {
    var myk, exclude, startp, stop := job.k, false, false, false;
    calls := [];
    ghost var n := 0;
    ghost var last: nat :| job.EndedAfter(last);
    while !stop
      invariant job.Passes(n) == if stop then Done(0, calls) else Running(myk, exclude, startp, calls)
      invariant n <= last
      decreases last - n
    {
      RunningBeforeEnd(job, n, last);
      n := n + 1;
      match Next(job.index, myk, exclude)
      case None =>
        rc := if startp then 0 else -ENOENT;
        assert job.EndsWith(n, rc, calls);
        EndIsAsHeard(job, n);
        return;
      case Some(t) =>
        if job.matches(t) {
          var go := job.cb(calls, t);
          calls := calls + [t];
          if !go {
            continue;
          }
          startp := true;
        } else if startp {
          stop := true;
          break;
        }
        myk, exclude := t, true;
    }
    rc := 0;
    assert job.EndsWith(n, rc, calls);
    EndIsAsHeard(job, n);
  }

  lemma RunningBeforeEnd(job: Job, n: nat, last: nat)
    requires job.Passes(n).Running? && job.Passes(last).Done?
    ensures n < last
  {
    if last <= n {
      DoneStays(job, last, n);
    }
  }

  lemma {:induction false} DoneStays(job: Job, m: nat, n: nat)
    requires m <= n && job.Passes(m).Done?
    ensures job.Passes(n) == job.Passes(m)
  {
    if m < n {
      DoneStays(job, m, n - 1);
    }
  }

  /** From each key, the strictly next one is its neighbour. */
  ghost predicate Neighbours(index: seq<Key>) {
    forall at {:trigger Next(index, index[at], true)} :: 0 <= at < |index| ==>
      Next(index, index[at], true) == KeyAt(index, at + 1)
  }

  lemma SortedNeighbours(index: seq<Key>)
    requires Sorted(index)
    ensures Neighbours(index)
  {
    forall at | 0 <= at < |index| ensures Next(index, index[at], true) == KeyAt(index, at + 1) {
      PositionAfter(index, at);
    }
  }

  /** The scan passes over the keys before the run without a call. */
  lemma {:induction false} SkipsToRun(job: Job, n: nat)
    requires Neighbours(job.index) && job.First() + n <= job.From()
    ensures job.Fetching(job.Passes(n), job.From(), job.First() + n, [])
  {
    if n > 0 {
      SkipsToRun(job, n - 1);
      SkipOne(job, job.From(), job.Passes(n - 1), job.First() + (n - 1));
    }
  }

  lemma SkipOne(job: Job, from: nat, st: Scan, at: nat)
    requires Neighbours(job.index) && at < from <= |job.index| && !job.matches(job.index[at])
    requires job.Fetching(st, from, at, [])
    ensures job.Fetching(job.Pass(st), from, at + 1, [])
  {
    assert Next(job.index, job.index[at], true) == KeyAt(job.index, at + 1);
  }

  /** At a key of the run, a pass calls back, and moves on exactly if the callback accepts. */
  lemma CallOne(job: Job, from: nat, st: Scan, at: nat, calls: seq<Key>)
    requires Neighbours(job.index) && from <= at && job.MatchAt(at) && job.Fetching(st, from, at, calls)
    ensures var t := job.index[at];
      job.Fetching(job.Pass(st), from, if job.cb(calls, t) then at + 1 else at, calls + [t])
  {
    assert Next(job.index, job.index[at], true) == KeyAt(job.index, at + 1);
  }

  /** Refused again and again, the scan only repeats the call. */
  lemma {:induction false} RepeatsCall(job: Job, from: nat, n: nat, at: nat, calls: seq<Key>, m: nat)
    requires Neighbours(job.index) && from <= at && job.MatchAt(at) && job.Fetching(job.Passes(n), from, at, calls)
    requires forall j :: 0 <= j < m ==> !job.cb(calls + Repeat(job.index[at], j), job.index[at])
    ensures job.Fetching(job.Passes(n + m), from, at, calls + Repeat(job.index[at], m))
  {
    var t := job.index[at];
    if m == 0 {
      assert calls + Repeat(t, 0) == calls;
    } else {
      RepeatsCall(job, from, n, at, calls, m - 1);
      CallOne(job, from, job.Passes(n + (m - 1)), at, calls + Repeat(t, m - 1));
      RepeatMore(calls, t, m - 1);
    }
  }

  /** The scan comes to the key at position `at` after these calls. */
  ghost predicate Comes(job: Job, from: nat, at: nat, calls: seq<Key>) {
    exists n: nat {:trigger job.Fetching(job.Passes(n), from, at, calls)} ::
      job.Fetching(job.Passes(n), from, at, calls)
  }

  lemma ComesToRun(job: Job)
    requires Neighbours(job.index)
    ensures Comes(job, job.From(), job.From(), [])
  {
    SkipsToRun(job, job.From() - job.First());
  }

  lemma AcceptedAt(job: Job, from: nat, n: nat, at: nat, calls: seq<Key>, m: nat) returns (n': nat)
    requires Neighbours(job.index) && from <= at && job.MatchAt(at) && job.Fetching(job.Passes(n), from, at, calls)
    requires job.AcceptsAfter(calls, job.index[at], m)
    ensures job.Fetching(job.Passes(n'), from, at + 1, calls + Repeat(job.index[at], m + 1))
  {
    var t := job.index[at];
    RepeatsCall(job, from, n, at, calls, m);
    CallOne(job, from, job.Passes(n + m), at, calls + Repeat(t, m));
    RepeatMore(calls, t, m);
    n' := n + m + 1;
  }

  /** A key of the run, from its first call to its acceptance. */
  lemma ComesPast(job: Job, from: nat, at: nat, calls: seq<Key>, m: nat)
    requires Neighbours(job.index) && from <= at && job.MatchAt(at) && Comes(job, from, at, calls)
    requires job.AcceptsAfter(calls, job.index[at], m)
    ensures Comes(job, from, at + 1, calls + Repeat(job.index[at], m + 1))
  {
    var n: nat :| job.Fetching(job.Passes(n), from, at, calls);
    n := AcceptedAt(job, from, n, at, calls, m);
  }

  ghost predicate AllMatch(job: Job, from: nat, to: nat) {
    forall at :: from <= at < to ==> job.MatchAt(at)
  }

  /** The scan comes past the first `i` keys of the run, with these refusals. */
  ghost predicate ComesTo(job: Job, from: nat, refusals: seq<nat>, i: nat)
    requires i <= |refusals| && from + |refusals| <= |job.index|
  {
    Comes(job, from, from + i, Heard(job.index, from, refusals, i))
  }

  ghost predicate ComesFurther(job: Job, from: nat, refusals: seq<nat>, i: nat)
    requires i < |refusals| && from + |refusals| <= |job.index|
  {
    ComesTo(job, from, refusals, i) ==> ComesTo(job, from, refusals, i + 1)
  }

  lemma HearsKey(job: Job, from: nat, refusals: seq<nat>, i: nat)
    requires Neighbours(job.index) && i < |refusals| && from + |refusals| <= |job.index|
    requires AllMatch(job, from, from + |refusals|) && job.Answers(from, refusals)
    ensures ComesFurther(job, from, refusals, i)
  {
    assert job.AnswersAt(from, refusals, i);
    assert job.MatchAt(from + i);
    if ComesTo(job, from, refusals, i) {
      ComesPast(job, from, from + i, Heard(job.index, from, refusals, i), refusals[i]);
    }
  }

  lemma {:induction false} ComesOn(job: Job, from: nat, refusals: seq<nat>, n: nat)
    requires n <= |refusals| && from + |refusals| <= |job.index|
    requires ComesTo(job, from, refusals, 0)
    requires forall i :: 0 <= i < |refusals| ==> ComesFurther(job, from, refusals, i)
    ensures ComesTo(job, from, refusals, n)
    decreases n
  {
    if n > 0 {
      ComesOn(job, from, refusals, n - 1);
      assert ComesFurther(job, from, refusals, n - 1);
    }
  }

  /** The keys of the run are accepted one after the other. */
  lemma HearsRun(job: Job, from: nat, refusals: seq<nat>)
    requires Neighbours(job.index) && from + |refusals| <= |job.index|
    requires Comes(job, from, from, []) && AllMatch(job, from, from + |refusals|) && job.Answers(from, refusals)
    ensures ComesTo(job, from, refusals, |refusals|)
  {
    forall i | 0 <= i < |refusals| ensures ComesFurther(job, from, refusals, i) {
      HearsKey(job, from, refusals, i);
    }
    ComesOn(job, from, refusals, |refusals|);
  }

  /** What the scan needs to know of the index and of the run. */
  lemma RunShape(job: Job, from: nat, to: nat)
    requires Sorted(job.index) && from == job.From() && to == job.To()
    ensures Neighbours(job.index) && AllMatch(job, from, to) && Comes(job, from, from, [])
  {
    SortedNeighbours(job.index);
    ComesToRun(job);
  }

  /** The last pass, when the callback accepts every key of the run in the end. */
  lemma ScanEnds(job: Job) returns (last: nat, refusals: seq<nat>)
    requires Sorted(job.index) && job.Accepts()
    ensures job.AnswersAll(refusals)
    ensures job.Passes(last) == Done(if job.From() == |job.index| then -ENOENT else 0, job.HeardAll(refusals))
  {
    refusals :| job.AnswersAll(refusals);
    var from, to := job.From(), job.To();
    RunShape(job, from, to);
    last := HearsToEnd(job, from, to, refusals);
  }

  lemma HearsToEnd(job: Job, from: nat, to: nat, refusals: seq<nat>) returns (last: nat)
    requires Neighbours(job.index) && from + |refusals| == to <= |job.index|
    requires Comes(job, from, from, []) && AllMatch(job, from, to) && job.Answers(from, refusals)
    requires (from == to ==> to == |job.index|) && !job.MatchAt(to)
    ensures job.Passes(last) ==
            Done(if from == |job.index| then -ENOENT else 0, Heard(job.index, from, refusals, |refusals|))
  {
    HearsRun(job, from, refusals);
    last := ComesToEnd(job, from, to, Heard(job.index, from, refusals, |refusals|));
  }

  lemma ComesToEnd(job: Job, from: nat, to: nat, calls: seq<Key>) returns (last: nat)
    requires Comes(job, from, to, calls) && from <= to <= |job.index| && (from == to ==> to == |job.index|)
    requires !job.MatchAt(to)
    ensures job.Passes(last) == Done(if from == |job.index| then -ENOENT else 0, calls)
  {
    var n: nat :| job.Fetching(job.Passes(n), from, to, calls);
    last := n + 1;
  }

  /** A callback that ever accepts `t` does so after a number of refusals. */
  lemma {:induction false} AcceptsOrNever(job: Job, calls: seq<Key>, t: Key, m: nat) returns (least: nat)
    requires job.cb(calls + Repeat(t, m), t)
    ensures job.AcceptsAfter(calls, t, least)
  {
    if j :| 0 <= j < m && job.cb(calls + Repeat(t, j), t) {
      least := AcceptsOrNever(job, calls, t, j);
    } else {
      least := m;
    }
  }

  ghost predicate RefusedFrom(job: Job, t: Key, calls: seq<Key>) {
    forall m: nat :: !job.cb(calls + Repeat(t, m), t)
  }

  lemma {:induction false} HeardBefore(index: seq<Key>, from: nat, refusals: seq<nat>, more: nat, n: nat)
    requires n <= |refusals| && from + |refusals| < |index|
    ensures Heard(index, from, refusals + [more], n) == Heard(index, from, refusals, n)
  {
    if n > 0 {
      HeardBefore(index, from, refusals, more, n - 1);
    }
  }

  lemma AnswersMore(job: Job, from: nat, refusals: seq<nat>, more: nat)
    requires from + |refusals| < |job.index| && job.Answers(from, refusals)
    requires job.AcceptsAfter(Heard(job.index, from, refusals, |refusals|), job.index[from + |refusals|], more)
    ensures job.Answers(from, refusals + [more])
  {
    var longer := refusals + [more];
    forall i | 0 <= i < |longer| ensures job.AnswersAt(from, longer, i) {
      HeardBefore(job.index, from, refusals, more, i);
      if i < |refusals| {
        assert job.AnswersAt(from, refusals, i);
      }
    }
  }

  /** The callback accepts the keys up to position `to`, or up to one that it refuses for ever. */
  lemma RefusedForEver(job: Job, from: nat, to: nat) returns (refusals: seq<nat>)
    requires from <= to <= |job.index|
    ensures from + |refusals| <= to && job.Answers(from, refusals)
    ensures var at := from + |refusals|;
      at < to ==> RefusedFrom(job, job.index[at], Heard(job.index, from, refusals, |refusals|))
  {
    refusals := [];
    for at := from to to
      invariant at == from + |refusals| && job.Answers(from, refusals)
    {
      var t, calls := job.index[at], Heard(job.index, from, refusals, |refusals|);
      if m: nat :| job.cb(calls + Repeat(t, m), t) {
        var least := AcceptsOrNever(job, calls, t, m);
        AnswersMore(job, from, refusals, least);
        refusals := refusals + [least];
      } else {
        return;
      }
    }
  }

  /** A scan that comes to a key refused for ever does not end. */
  lemma NeverEnds(job: Job, from: nat, at: nat, calls: seq<Key>)
    requires Neighbours(job.index) && from <= at && job.MatchAt(at) && Comes(job, from, at, calls)
    requires RefusedFrom(job, job.index[at], calls)
    ensures !job.Ends()
  {
    var n: nat :| job.Fetching(job.Passes(n), from, at, calls);
    forall l: nat ensures !job.EndedAfter(l) {
      RepeatsCall(job, from, n, at, calls, l);
      if job.EndedAfter(l) {
        DoneStays(job, l, n + l);
      }
    }
  }

  /** The callback accepts the keys up to position `to`, or the scan does not end. */
  lemma AcceptsOrGoesOn(job: Job, from: nat, to: nat) returns (refusals: seq<nat>)
    requires Neighbours(job.index) && from <= to <= |job.index|
    requires Comes(job, from, from, []) && AllMatch(job, from, to)
    ensures from + |refusals| <= to && job.Answers(from, refusals)
    ensures from + |refusals| < to ==> !job.Ends()
  {
    refusals := RefusedForEver(job, from, to);
    var at, calls := from + |refusals|, Heard(job.index, from, refusals, |refusals|);
    if at < to {
      HearsRun(job, from, refusals);
      NeverEnds(job, from, at, calls);
    }
  }

  /** The scan ends exactly when the callback accepts every key of the run in the end; else it stays at one key. */
  lemma PatternEndsIffAccepted(job: Job)
    requires Sorted(job.index)
    ensures job.Ends() <==> job.Accepts()
  {
    if job.Accepts() {
      var last, refusals := ScanEnds(job);
      assert job.EndedAfter(last);
    } else {
      var from, to := job.From(), job.To();
      RunShape(job, from, to);
      var refusals := AcceptsOrGoesOn(job, from, to);
      assert job.AnswersAll(refusals) <==> from + |refusals| == to;
    }
  }

  /** However the scan comes to its end, that is the one after the whole run. */
  lemma EndIsAsHeard(job: Job, n: nat)
    requires Sorted(job.index) && job.Passes(n).Done?
    ensures job.Passes(n).rc == if job.From() == |job.index| then -ENOENT else 0
    ensures exists refusals :: job.AnswersAll(refusals) && job.Passes(n).calls == job.HeardAll(refusals)
  {
    assert job.EndedAfter(n);
    PatternEndsIffAccepted(job);
    var last, refusals := ScanEnds(job);
    if n <= last {
      DoneStays(job, n, last);
    } else {
      DoneStays(job, last, n);
    }
  }

  /** Keys that are accepted at once are heard once. */
  lemma {:induction false} HeardOnce(index: seq<Key>, from: nat, refusals: seq<nat>, n: nat)
    requires n <= |refusals| && from + |refusals| <= |index| && forall i :: 0 <= i < n ==> refusals[i] == 0
    ensures Heard(index, from, refusals, n) == index[from..from + n]
  {
    if n > 0 {
      HeardOnce(index, from, refusals, n - 1);
      SliceMore(index, from, from + n - 1);
      assert Repeat(index[from + n - 1], 1) == [index[from + n - 1]];
    }
  }

  lemma SliceMore(s: seq<Key>, i: nat, j: nat)
    requires i <= j < |s|
    ensures s[i..j] + [s[j]] == s[i..j + 1]
  {
  }

  /** For a pattern that asks for a prefix, and a start not after it, the run is every key with that prefix. */
  lemma PrefixPatternIsAll(job: Job, p: Key, i: nat)
    requires Sorted(job.index) && AtMost(job.k, p) && i < |job.index|
    requires forall t :: job.matches(t) <==> p <= t
    ensures job.From() <= i < job.To() <==> p <= job.index[i]
  {
    var from, to, t := job.From(), job.To(), job.index[i];
    if p <= t {
      PrefixAtMost(p, t);
      AtMostTransitive(job.k, p, t);
      FromPosition(job.index, job.k, i);
      assert job.matches(t);
      if to <= i {
        var f := job.index[from];
        assert job.matches(f);
        PrefixAtMost(p, f);
        AtMostTransitive(p, f, job.index[to]);
        PrefixContiguous(p, job.index[to], t);
      }
    }
  }

  // ----- prefix existence -----

  /** The answer of `m0kvs_key_prefix_exists`, or its debug assertion on the length of the found key. */
  datatype Probe = Answer(found: bool) | AssertionFails

  function PrefixExists(index: seq<Key>, p: Key): Probe {
    match Next(index, p, false)
    case None => Answer(false)
    case Some(key) => if |key| < |p| then AssertionFails else Answer(key[..|p|] == p)
  }

  /**
   Looking only at the least key not below the prefix decides whether any key carries it. The answer
   true is always right and never missed; the assertion fails exactly when no key carries the prefix
   and the least key not below it is shorter than it.
   */
  lemma PrefixExistsExact(index: seq<Key>, p: Key)
    requires Sorted(index)
    ensures PrefixExists(index, p) == Answer(true) <==> exists i :: 0 <= i < |index| && p <= index[i]
    ensures PrefixExists(index, p) == AssertionFails <==>
            (forall i :: 0 <= i < |index| ==> !(p <= index[i])) &&
            Next(index, p, false).Some? && |Next(index, p, false).value| < |p|
  {
    var at := Position(index, p, false);
    forall i | 0 <= i < |index| && p <= index[i] ensures at <= i && p <= index[at] {
      PrefixAtMost(p, index[i]);
      PrefixContiguous(p, index[at], index[i]);
    }
    if at < |index| && |p| <= |index[at]| && index[at][..|p|] == p {
      assert p <= index[at];
    }
  }

  /** The assertion does fail: for the prefix `ab` and the single key `b`. */
  lemma ShortKeyFails()
    ensures Sorted([[98]]) && PrefixExists([[98]], [97, 98]) == AssertionFails
  {
    var b: Key := [98];
    assert Less([97, 98], b);
    assert Position([b], [97, 98], false) == 0;
  }

  /** With no key shorter than the prefix, the function always answers, and answers the question. */
  lemma PrefixExistsAnswers(index: seq<Key>, p: Key)
    requires Sorted(index) && forall i :: 0 <= i < |index| ==> |p| <= |index[i]|
    ensures PrefixExists(index, p) == Answer(exists i :: 0 <= i < |index| && p <= index[i])
  {
    PrefixExistsExact(index, p);
  }

  // ----- iterator -----

  class KeyIter {
    var index: seq<Key>
    var key: Key
    var initialized: bool

    constructor (index: seq<Key>)
      ensures this.index == index && !initialized
    {
      this.index, key, initialized := index, [], false;
    }

    /** `m0kvs_key_iter_find`; a failed search wipes the iterator. */
    method Find(prefix: Key) returns (rc: int)
      modifies this
      ensures rc == if Position(old(index), prefix, false) < |old(index)| then 0 else -ENOENT
      ensures rc == 0 ==> initialized && index == old(index) && key == index[Position(index, prefix, false)]
      ensures rc != 0 ==> !initialized && index == [] && key == []
    {
      match Next(index, prefix, false)
      case None =>
        index, key, initialized := [], [], false;
        rc := -ENOENT;
      case Some(k) =>
        key, initialized := k, true;
        rc := 0;
    }

    /** `m0kvs_key_iter_next` */
    method Advance() returns (rc: int)
      requires initialized
      modifies this`key
      ensures rc == if Position(index, old(key), true) < |index| then 0 else -ENOENT
      ensures key == if rc == 0 then index[Position(index, old(key), true)] else old(key)
    {
      match Next(index, key, true)
      case None => rc := -ENOENT;
      case Some(k) =>
        key := k;
        rc := 0;
    }

    /** Find, then advance until it fails: every key at or after the prefix, once, in increasing order. */
    method VisitAll(prefix: Key) returns (visited: seq<Key>)
      requires Sorted(index)
      modifies this
      ensures visited == old(index)[Position(old(index), prefix, false)..]
    {
      ghost var from := Position(index, prefix, false);
      visited := [];
      var rc := Find(prefix);
      while rc == 0
        invariant from + |visited| <= |old(index)|
        invariant visited == old(index)[from..from + |visited|]
        invariant rc == 0 ==>
          initialized && index == old(index) && from + |visited| < |index| && key == index[from + |visited|]
        invariant rc != 0 ==> from + |visited| == |old(index)|
        decreases |old(index)| - |visited|
      {
        PositionAfter(index, from + |visited|);
        SliceMore(index, from, from + |visited|);
        visited := visited + [key];
        rc := Advance();
      }
    }
  }

  /** What the iterator visits is strictly increasing, and complete from the prefix on. */
  lemma VisitedIsSuffix(index: seq<Key>, p: Key)
    requires Sorted(index)
    ensures var visited := index[Position(index, p, false)..];
      && Sorted(visited)
      && forall i :: 0 <= i < |index| ==> (index[i] in visited <==> AtMost(p, index[i]))
  {
    var at := Position(index, p, false);
    var visited := index[at..];
    forall i | 0 <= i < |index| ensures index[i] in visited <==> AtMost(p, index[i]) {
      FromPosition(index, p, i);
      if at <= i {
        assert visited[i - at] == index[i];
      } else if index[i] in visited {
        var j :| 0 <= j < |visited| && visited[j] == index[i];
        assert Less(index[i], index[at + j]);
        LessIrreflexive(index[i]);
      }
    }
  }

  /** The visited keys that carry the prefix come first, without a gap, and are all keys that carry it. */
  lemma CarriersComeFirst(index: seq<Key>, p: Key) returns (n: nat)
    requires Sorted(index)
    ensures var at := Position(index, p, false);
      && at + n <= |index|
      && forall i :: 0 <= i < |index| ==> (p <= index[i] <==> at <= i < at + n)
  {
    var at := Position(index, p, false);
    n := 0;
    while at + n < |index| && p <= index[at + n]
      invariant at + n <= |index|
      invariant forall i :: at <= i < at + n ==> p <= index[i]
    {
      n := n + 1;
    }
    forall i | 0 <= i < |index| && p <= index[i] ensures at <= i < at + n {
      PrefixAtMost(p, index[i]);
      FromPosition(index, p, i);
      if at + n <= i {
        FromPosition(index, p, at + n);
        PrefixContiguous(p, index[at + n], index[i]);
      }
    }
  }
}
