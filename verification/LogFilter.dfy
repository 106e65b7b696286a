/** `limit_size`: which log files reach a support bundle of limited size, and how much of the last one. */
module LogFilter {

  type Bytes = seq<bv8>

  datatype LogFile = LogFile(name: string, mtime: int, data: Bytes)

  datatype Outcome = Written | TruncateFailed

  /** A trailing `*` of the name pattern is dropped, the rest is a prefix. */
  function Stem(pattern: string): string {
    if pattern != "" && pattern[|pattern| - 1] == '*' then pattern[..|pattern| - 1] else pattern
  }

  /** The directory listing, sorted by modification time in descending order. */
  predicate NewestFirst(files: seq<LogFile>) {
    (forall i, j :: 0 <= i < j < |files| ==> files[i].mtime >= files[j].mtime) &&
    (forall i, j :: 0 <= i < j < |files| ==> files[i].name != files[j].name)
  }

  /** The files from position `i` on whose name starts with the stem. */
  function Matching(files: seq<LogFile>, stem: string, i: nat): (r: seq<LogFile>)
    ensures forall f :: f in r ==> exists k :: i <= k < |files| && files[k] == f
    decreases |files| - i
  {
    if i >= |files| then []
    else (if stem <= files[i].name then [files[i]] else []) + Matching(files, stem, i + 1)
  }

  function TotalSize(files: seq<LogFile>): nat {
    if files == [] then 0 else |files[0].data| + TotalSize(files[1..])
  }

  /** A file cut to its last `n` bytes. */
  function Cut(f: LogFile, n: nat): LogFile
    requires n <= |f.data|
  {
    f.(data := f.data[|f.data| - n..])
  }

  /** `t` is the last `n` elements of `s`. */
  predicate IsTail<T(==)>(t: seq<T>, n: nat, s: seq<T>) {
    |t| == n <= |s| && s[..|s| - n] + t == s
  }

  /** What a budget of `limit` bytes lets through: whole files, then the tail of the first that is too big. */
  function Kept(files: seq<LogFile>, limit: nat): seq<LogFile> {
    if files == [] then []
    else if |files[0].data| <= limit then [files[0]] + Kept(files[1..], limit - |files[0].data|)
    else [Cut(files[0], limit)]
  }

  /** `limit_size` into a fresh directory: the files written, in order. */
  method LimitSize(files: seq<LogFile>, pattern: string, limit: int) returns (written: seq<LogFile>, outcome: Outcome)
    ensures limit >= 0 ==> outcome == Written && written == Kept(Matching(files, Stem(pattern), 0), limit)
    ensures limit < 0 ==>
      var all := Matching(files, Stem(pattern), 0);
      if all == [] then outcome == Written && written == []
      else outcome == TruncateFailed && written == [all[0].(data := [])]
  {
    written, outcome := [], Written;
    var stem := Stem(pattern);
    var required := limit;
    ghost var all := Matching(files, stem, 0);
    for i := 0 to |files|
      invariant limit < 0 ==> required == limit && written == [] && all == Matching(files, stem, i)
      invariant limit >= 0 ==> required >= 0 && Kept(all, limit) == written + Kept(Matching(files, stem, i), required)
    {
      var f := files[i];
      ghost var rest := Matching(files, stem, i + 1);
      MatchingStep(files, stem, i);
      if stem <= f.name {
        if |f.data| <= required {
          KeptStep(f, rest, required);
          PrependFirst(f, written, Kept(rest, required - |f.data|));
          written := written + [f];
          required := required - |f.data|;
        } else if required < 0 {
          return [f.(data := [])], TruncateFailed;
        } else {
          KeptStep(f, rest, required);
          return written + [Cut(f, required)], Written;
        }
      }
    }
  }

  lemma MatchingStep(files: seq<LogFile>, stem: string, i: nat)
    requires i < |files|
    ensures var rest := Matching(files, stem, i + 1);
      Matching(files, stem, i) == if stem <= files[i].name then [files[i]] + rest else rest
  {
    var rest := Matching(files, stem, i + 1);
    assert [] + rest == rest;
  }

  lemma KeptStep(f: LogFile, rest: seq<LogFile>, limit: nat)
    ensures Kept([f] + rest, limit) ==
            if |f.data| <= limit then [f] + Kept(rest, limit - |f.data|) else [Cut(f, limit)]
  {
    assert ([f] + rest)[1..] == rest;
  }

  /** The bytes written are as many as asked for, or all there are. */
  lemma {:induction false} KeptSize(files: seq<LogFile>, limit: nat)
    ensures TotalSize(Kept(files, limit)) == if TotalSize(files) < limit then TotalSize(files) else limit
  {
    if files != [] {
      if |files[0].data| <= limit {
        KeptSize(files[1..], limit - |files[0].data|);
        assert Kept(files, limit)[1..] == Kept(files[1..], limit - |files[0].data|);
      } else {
        assert Kept(files, limit)[1..] == [];
      }
    }
  }

  lemma SizeCons(f: LogFile, rest: seq<LogFile>)
    ensures TotalSize([f] + rest) == |f.data| + TotalSize(rest)
  {
    assert ([f] + rest)[1..] == rest;
  }

  lemma PrependFirst(f: LogFile, whole: seq<LogFile>, tail: seq<LogFile>)
    ensures [f] + (whole + tail) == [f] + whole + tail
    ensures whole + ([f] + tail) == whole + [f] + tail
  {
  }

  /** What is written: the first `m` files whole, then at most the tail of the next one. */
  lemma {:induction false} KeptShape(files: seq<LogFile>, limit: nat) returns (m: nat)
    ensures m <= |files| && TotalSize(files[..m]) <= limit
    ensures m == |files| ==> Kept(files, limit) == files
    ensures m < |files| ==> var left := limit - TotalSize(files[..m]);
              && left < |files[m].data| && |Kept(files, limit)| == m + 1 && Kept(files, limit)[..m] == files[..m]
              && Kept(files, limit)[m] == files[m].(data := Kept(files, limit)[m].data)
              && IsTail(Kept(files, limit)[m].data, left, files[m].data)
  {
    if files == [] {
      m := 0;
    } else if |files[0].data| <= limit {
      var n := KeptShape(files[1..], limit - |files[0].data|);
      m := n + 1;
      assert files[..m] == [files[0]] + files[1..][..n];
      SizeCons(files[0], files[1..][..n]);
      assert Kept(files, limit) == [files[0]] + Kept(files[1..], limit - |files[0].data|);
      if m < |files| {
        assert Kept(files, limit)[m] == Kept(files[1..], limit - |files[0].data|)[n] && files[m] == files[1..][n];
      }
    } else {
      m := 0;
      assert files[..0] == [];
    }
  }

  lemma {:induction false} MatchingNewestFirst(files: seq<LogFile>, stem: string, i: nat)
    requires NewestFirst(files)
    ensures NewestFirst(Matching(files, stem, i))
    decreases |files| - i
  {
    if i < |files| {
      var rest := Matching(files, stem, i + 1);
      MatchingNewestFirst(files, stem, i + 1);
      if stem <= files[i].name {
        LaterIsOlder(files, stem, i);
        NewestFirstCons(files[i], rest);
      } else {
        assert [] + rest == rest;
      }
    }
  }

  /** `f` may stand before these files. */
  predicate Precedes(f: LogFile, rest: seq<LogFile>) {
    forall i :: 0 <= i < |rest| ==> f.mtime >= rest[i].mtime && f.name != rest[i].name
  }

  lemma LaterIsOlder(files: seq<LogFile>, stem: string, i: nat)
    requires NewestFirst(files) && i < |files|
    ensures Precedes(files[i], Matching(files, stem, i + 1))
  {
    var rest := Matching(files, stem, i + 1);
    forall n | 0 <= n < |rest| ensures files[i].mtime >= rest[n].mtime && files[i].name != rest[n].name {
      assert rest[n] in rest;
    }
  }

  lemma NewestFirstCons(f: LogFile, rest: seq<LogFile>)
    requires NewestFirst(rest) && Precedes(f, rest)
    ensures NewestFirst([f] + rest)
  {
  }

  /** Written files keep their names, so in a fresh directory none overwrites another. */
  lemma {:induction false} KeptNames(files: seq<LogFile>, limit: nat)
    ensures |Kept(files, limit)| <= |files|
    ensures forall i :: 0 <= i < |Kept(files, limit)| ==> Kept(files, limit)[i].name == files[i].name
  {
    if files != [] && |files[0].data| <= limit {
      KeptNames(files[1..], limit - |files[0].data|);
    }
  }

  /** The name starts with the pattern, or with all of it but a trailing `*`. */
  ghost predicate Named(name: string, pattern: string) {
    pattern <= name || exists front :: pattern == front + "*" && front <= name
  }

  lemma NamedIffStem(name: string, pattern: string)
    ensures Named(name, pattern) <==> Stem(pattern) <= name
  {
    if front :| pattern == front + "*" {
      assert pattern[..|pattern| - 1] == front && pattern[|pattern| - 1] == '*';
    }
    if pattern != "" && pattern[|pattern| - 1] == '*' {
      assert pattern == Stem(pattern) + "*";
    }
  }

  lemma {:induction false} MatchingIsNamed(files: seq<LogFile>, pattern: string, i: nat, f: LogFile)
    requires i <= |files|
    ensures f in Matching(files, Stem(pattern), i) <==> f in files[i..] && Named(f.name, pattern)
    decreases |files| - i
  {
    if i < |files| {
      MatchingIsNamed(files, pattern, i + 1, f);
      NamedIffStem(f.name, pattern);
      MatchingStep(files, Stem(pattern), i);
      assert files[i..] == [files[i]] + files[i + 1..];
    }
  }

  /**
   Over a whole directory: exactly min(total, limit) bytes are written; the files written whole are
   the `m` newest matching ones, of the next one its last bytes are written, and no name is written twice.
   */
  lemma BundleLaw(files: seq<LogFile>, pattern: string, limit: nat) returns (m: nat)
    requires NewestFirst(files)
    ensures forall f :: f in Matching(files, Stem(pattern), 0) <==> f in files && Named(f.name, pattern)
    ensures var all := Matching(files, Stem(pattern), 0);
      var kept := Kept(all, limit);
      && TotalSize(kept) == (if TotalSize(all) < limit then TotalSize(all) else limit)
      && m <= |all| && m <= |kept| <= m + 1 && kept[..m] == all[..m]
      && TotalSize(all[..m]) <= limit
      && (if m == |all| then kept == all
          else |kept| == m + 1 && kept[m].name == all[m].name &&
               IsTail(kept[m].data, limit - TotalSize(all[..m]), all[m].data))
      && (forall i, j :: 0 <= i < m <= j < |all| ==> all[i].mtime >= all[j].mtime)
      && (forall i, j :: 0 <= i < j < |kept| ==> kept[i].name != kept[j].name)
  {
    var all := Matching(files, Stem(pattern), 0);
    forall f ensures f in all <==> f in files && Named(f.name, pattern) {
      MatchingIsNamed(files, pattern, 0, f);
      assert files[0..] == files;
    }
    MatchingNewestFirst(files, Stem(pattern), 0);
    KeptSize(all, limit);
    KeptDistinct(all, limit);
    m := KeptShape(all, limit);
  }

  lemma KeptDistinct(files: seq<LogFile>, limit: nat)
    requires NewestFirst(files)
    ensures var kept := Kept(files, limit);
      forall i, j :: 0 <= i < j < |kept| ==> kept[i].name != kept[j].name
  {
    KeptNames(files, limit);
  }
}
