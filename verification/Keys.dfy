/**
 The key syntax `k6>k4[2]>k5`: how a key string is split into components, how `get_keys` prints a
 path, and that splitting undoes printing.
 */
module Keys {
  import opened Wrappers
  import opened Text
  import opened Tree

  /** One component of a key: a name, an optional index, and the text the split leaves after the index. */
  datatype Comp = Comp(name: string, index: Option<nat>, tail: string)

  // ----- decimal numbers -----

  predicate AllDigits(s: string) {
    forall k :: 0 <= k < |s| ==> IsDigit(s[k])
  }

  /** Python's `"%d"` of a natural number. */
  function NatText(n: nat): (s: string)
    ensures s != "" && AllDigits(s)
  {
    var d := [('0' as int + n % 10) as char];
    if n < 10 then d else NatText(n / 10) + d
  }

  /** Python's `int` of a string of digits. */
  function TextNat(s: string): nat
    requires AllDigits(s)
  {
    if s == "" then 0 else 10 * TextNat(s[..|s| - 1]) + (s[|s| - 1] as int - '0' as int)
  }

  lemma {:induction false} NatRoundTrip(n: nat)
    ensures TextNat(NatText(n)) == n
  {
    if n >= 10 {
      NatRoundTrip(n / 10);
      assert NatText(n)[..|NatText(n)| - 1] == NatText(n / 10);
    } else {
      assert NatText(n)[..0] == "";
    }
  }

  // ----- splitting -----

  function DigitRun(s: string): (d: nat)
    ensures d <= |s| && AllDigits(s[..d]) && (d < |s| ==> !IsDigit(s[d]))
  {
    if s == "" || !IsDigit(s[0]) then 0 else
      var d := DigitRun(s[1..]);
      assert s[..1 + d] == [s[0]] + s[1..][..d];
      1 + d
  }

  /** Length of the match of `\[([0-9]+)\]` at the head of `s`, 0 if there is none. */
  function BracketLength(s: string): (n: nat)
    ensures n > 0 ==> 3 <= n <= |s| && AllDigits(s[1..n - 1])
  {
    if s == "" || s[0] != '[' then 0 else
      var d := DigitRun(s[1..]);
      assert s[1..][..d] == s[1..1 + d];
      if d > 0 && 1 + d < |s| && s[1 + d] == ']' then d + 2 else 0
  }

  /** The first match of the index pattern, with the text before and after it. */
  datatype Match = NoMatch | Match(before: string, digits: string, after: string)

  function FindMatch(s: string): (m: Match)
    ensures m.Match? ==> AllDigits(m.digits) && |m.after| < |s|
  {
    if s == "" then NoMatch else
      var n := BracketLength(s);
      if n > 0 then Match("", s[1..n - 1], s[n..])
      else match FindMatch(s[1..])
        case NoMatch => NoMatch
        case Match(before, digits, after) => Match([s[0]] + before, digits, after)
  }

  /** `re.split(r'\[([0-9]+)\]', s)`: the texts between matches, with each match's digits in between. */
  function ReSplit(s: string): (r: seq<string>)
    ensures |r| % 2 == 1 && (|r| > 1 ==> AllDigits(r[1]))
    decreases |s|
  {
    match FindMatch(s)
    case NoMatch => [s]
    case Match(before, digits, after) => [before, digits] + ReSplit(after)
  }

  function CompOf(segment: string): Comp {
    var ki := ReSplit(segment);
    if |ki| == 1 then Comp(ki[0], None, "") else Comp(ki[0], Some(TextNat(ki[1])), ki[2])
  }

  /** `key.split('>', 1)`. */
  function Cut(key: string): (r: (string, Option<string>))
    ensures r.1.Some? ==> |r.1.value| < |key|
  {
    if key == "" then ("", None)
    else if key[0] == '>' then ("", Some(key[1..]))
    else var r := Cut(key[1..]); ([key[0]] + r.0, r.1)
  }

  /** All components of a key. */
  function Comps(key: string): (p: seq<Comp>)
    ensures p != []
    decreases |key| + 1, 0
  {
    [CompOf(Cut(key).0)] + RestComps(Cut(key).1)
  }

  function RestComps(rest: Option<string>): seq<Comp>
    decreases if rest.Some? then |rest.value| + 1 else 0, 1
  {
    if rest.None? then [] else Comps(rest.value)
  }

  // ----- what splitting finds -----

  /** A number in brackets, from `i` to `j`. */
  predicate IndexAt(s: string, i: nat, j: nat) {
    i + 1 < j < |s| && s[i] == '[' && s[j] == ']' && AllDigits(s[i + 1..j])
  }

  ghost predicate NoIndex(s: string) {
    forall i: nat, j: nat :: !IndexAt(s, i, j)
  }

  /** `s` is read as `before[digits]after`, where no other number in brackets comes first. */
  ghost predicate FirstIndex(s: string, before: string, digits: string, after: string) {
    && s == before + "[" + digits + "]" + after && digits != "" && AllDigits(digits)
    && forall i: nat, j: nat :: IndexAt(s, i, j) ==> |before| <= i
  }

  lemma BracketIsIndex(s: string, j: nat)
    ensures BracketLength(s) > 0 ==> IndexAt(s, 0, BracketLength(s) - 1)
    ensures IndexAt(s, 0, j) ==> BracketLength(s) == j + 1
  {
    if s != "" && s[0] == '[' {
      var d := DigitRun(s[1..]);
      assert s[1..][..d] == s[1..1 + d];
      if IndexAt(s, 0, j) {
        assert s[1..j][..j - 1] == s[1..j];
        if d < j - 1 {
          assert s[1..][d] == s[1..j][d];
        } else if d > j - 1 {
          assert s[1..][..d][j - 1] == s[j];
        }
      }
    }
  }

  lemma IndexLater(s: string, i: nat, j: nat)
    requires s != ""
    ensures i > 0 && j > 0 ==> (IndexAt(s, i, j) <==> IndexAt(s[1..], i - 1, j - 1))
  {
    if 0 < i < j < |s| {
      assert s[1..][i..j - 1] == s[i + 1..j];
    }
  }

  lemma IndexAtHead(s: string)
    requires BracketLength(s) > 0
    ensures var n := BracketLength(s); FirstIndex(s, "", s[1..n - 1], s[n..])
  {
    var n := BracketLength(s);
    BracketIsIndex(s, 0);
    assert "" + "[" + s[1..n - 1] + "]" + s[n..] == s;
  }

  lemma NoIndexAtHead(s: string)
    requires s != "" && BracketLength(s) == 0
    ensures forall i: nat, j: nat :: IndexAt(s, i, j) ==> i > 0 && IndexAt(s[1..], i - 1, j - 1)
  {
    forall i: nat, j: nat | IndexAt(s, i, j) ensures i > 0 && IndexAt(s[1..], i - 1, j - 1) {
      BracketIsIndex(s, j);
      IndexLater(s, i, j);
    }
  }

  lemma FirstIndexLater(s: string, before: string, digits: string, after: string)
    requires s != "" && BracketLength(s) == 0 && FirstIndex(s[1..], before, digits, after)
    ensures FirstIndex(s, [s[0]] + before, digits, after)
  {
    NoIndexAtHead(s);
    assert s == [s[0]] + s[1..];
    assert s == ([s[0]] + before) + "[" + digits + "]" + after;
  }

  lemma {:induction false} FindExactly(s: string)
    ensures match FindMatch(s)
            case NoMatch => NoIndex(s)
            case Match(before, digits, after) => FirstIndex(s, before, digits, after)
    decreases |s|
  {
    if s != "" {
      if BracketLength(s) > 0 {
        IndexAtHead(s);
      } else {
        FindExactly(s[1..]);
        var m := FindMatch(s[1..]);
        if m.Match? {
          FirstIndexLater(s, m.before, m.digits, m.after);
        } else {
          NoIndexAtHead(s);
        }
      }
    }
  }

  /**
   Any segment of a key: without a number in brackets it is a name; otherwise the name is the text before the first
   such number, which is the index, and the rest of the text up to a second one is left over.
   */
  lemma CompExactly(segment: string)
    ensures var c := CompOf(segment);
      if c.index.None? then NoIndex(segment) && c.name == segment && c.tail == ""
      else exists digits, after ::
        && FirstIndex(segment, c.name, digits, after) && c.index.value == TextNat(digits)
        && ((NoIndex(after) && c.tail == after) || exists more, rest :: FirstIndex(after, c.tail, more, rest))
  {
    FindExactly(segment);
    var m := FindMatch(segment);
    if m.Match? {
      FindExactly(m.after);
      assert ReSplit(segment) == [m.before, m.digits] + ReSplit(m.after);
      assert FirstIndex(segment, m.before, m.digits, m.after);
      var next := FindMatch(m.after);
      if next.Match? {
        assert FirstIndex(m.after, next.before, next.digits, next.after);
      }
    }
  }

  // ----- printing -----

  /** The text `get_keys` puts after `prefix` for one step. */
  function ExtendText(prefix: Option<string>, a: Step): string {
    match a
    case Name(n) => if prefix.None? then n else prefix.value + ">" + n
    case Idx(i) => (if prefix.None? then "None" else prefix.value) + "[" + NatText(i) + "]"
  }

  /** The key `get_keys` prints for the path `s` below a node printed as `prefix`. */
  function PathText(prefix: Option<string>, s: Path): string
    requires s != []
    decreases |s|
  {
    if |s| == 1 then ExtendText(prefix, s[0])
    else
      var next := if s[0].Idx? && (prefix.None? || prefix.value == "") then None else Some(ExtendText(prefix, s[0]));
      PathText(next, s[1..])
  }

  function KeyOf(s: Path): string
    requires s != []
  {
    PathText(None, s)
  }

  // ----- components and steps -----

  predicate GoodComp(c: Comp) {
    GoodName(c.name) && c.tail == ""
  }

  predicate GoodComps(p: seq<Comp>) {
    p != [] && forall k :: 0 <= k < |p| ==> GoodComp(p[k])
  }

  function CompSteps(c: Comp): Path {
    [Name(c.name)] + if c.index.None? then [] else [Idx(c.index.value)]
  }

  function StepsOf(p: seq<Comp>): Path {
    if p == [] then [] else CompSteps(p[0]) + StepsOf(p[1..])
  }

  /** The components a path is printed as. */
  function Group(s: Path): seq<Comp>
    requires GoodSteps(s)
  {
    var rest := if |s| > 1 && s[1].Idx? then s[2..] else s[1..];
    var c := Comp(s[0].name, if |s| > 1 && s[1].Idx? then Some(s[1].i) else None, "");
    if rest == [] then [c] else
      assert GoodSteps(rest);
      [c] + Group(rest)
  }

  lemma {:induction false} GroupSteps(s: Path)
    requires GoodSteps(s)
    ensures GoodComps(Group(s)) && StepsOf(Group(s)) == s
    decreases |s|
  {
    var indexed := |s| > 1 && s[1].Idx?;
    var rest := if indexed then s[2..] else s[1..];
    var c := Comp(s[0].name, if indexed then Some(s[1].i) else None, "");
    assert GoodComp(c) && CompSteps(c) + rest == s;
    assert StepsOf([]) == [];
    if rest == [] {
      assert Group(s) == [c];
    } else {
      assert GoodSteps(rest);
      GroupSteps(rest);
      assert Group(s) == [c] + Group(rest);
    }
  }

  function CompText(c: Comp): string {
    c.name + if c.index.None? then "" else "[" + NatText(c.index.value) + "]"
  }

  function CompsText(p: seq<Comp>): string
    requires p != []
  {
    if |p| == 1 then CompText(p[0]) else CompText(p[0]) + ">" + CompsText(p[1..])
  }

  // ----- the round trip -----

  lemma {:induction false} DigitRunStops(d: string, rest: string)
    requires AllDigits(d) && rest != "" && !IsDigit(rest[0])
    ensures DigitRun(d + rest) == |d|
  {
    if d == "" {
      assert d + rest == rest;
    } else {
      assert (d + rest)[1..] == d[1..] + rest;
      DigitRunStops(d[1..], rest);
    }
  }

  lemma {:induction false} MatchAfter(name: string, digits: string)
    requires '[' !in name && AllDigits(digits) && digits != ""
    ensures FindMatch(name + "[" + digits + "]") == Match(name, digits, "")
  {
    var s := name + "[" + digits + "]";
    if name == "" {
      assert s[1..] == digits + "]";
      DigitRunStops(digits, "]");
      assert BracketLength(s) == |s|;
      assert s[1..|s| - 1] == digits;
    } else {
      assert s[1..] == name[1..] + "[" + digits + "]";
      MatchAfter(name[1..], digits);
      assert name == [name[0]] + name[1..];
    }
  }

  lemma {:induction false} NoMatchIn(name: string)
    requires '[' !in name
    ensures FindMatch(name) == NoMatch
  {
    if name != "" {
      NoMatchIn(name[1..]);
    }
  }

  /** A printed component splits back into itself. */
  lemma {:induction false} CompRoundTrip(c: Comp)
    requires GoodComp(c)
    ensures CompOf(CompText(c)) == c
  {
    match c.index
    case None =>
      NoMatchIn(c.name);
      assert c.name + "" == c.name;
    case Some(i) =>
      assert CompText(c) == c.name + "[" + NatText(i) + "]";
      MatchAfter(c.name, NatText(i));
      assert ReSplit("") == [""];
      NatRoundTrip(i);
  }

  lemma NoDelim(c: Comp)
    requires GoodComp(c)
    ensures '>' !in CompText(c)
  {
    if c.index.Some? {
      assert forall k :: 0 <= k < |NatText(c.index.value)| ==> IsDigit(NatText(c.index.value)[k]);
    }
  }

  lemma {:induction false} CutAfter(a: string, rest: string)
    requires '>' !in a
    ensures Cut(a) == (a, None)
    ensures Cut(a + ">" + rest) == (a, Some(rest))
  {
    if a == "" {
      assert (a + ">" + rest)[1..] == rest;
    } else {
      assert (a + ">" + rest)[1..] == a[1..] + ">" + rest;
      CutAfter(a[1..], rest);
      assert a == [a[0]] + a[1..];
    }
  }

  lemma {:induction false} CompsRoundTrip(p: seq<Comp>)
    requires GoodComps(p)
    ensures Comps(CompsText(p)) == p
  {
    NoDelim(p[0]);
    CompRoundTrip(p[0]);
    if |p| == 1 {
      CutAfter(CompText(p[0]), "");
      assert p == [p[0]];
    } else {
      CutAfter(CompText(p[0]), CompsText(p[1..]));
      CompsRoundTrip(p[1..]);
      assert p == [p[0]] + p[1..];
    }
  }

  /** What precedes the next name in a printed key. */
  function Lead(prefix: Option<string>): string {
    if prefix.None? then "" else prefix.value + ">"
  }

  lemma PathTextCons(prefix: Option<string>, a: Step, t: Path)
    requires a.Name? || (prefix.Some? && prefix.value != "")
    ensures PathText(prefix, [a] + t) ==
            if t == [] then ExtendText(prefix, a) else PathText(Some(ExtendText(prefix, a)), t)
  {
    assert ([a] + t)[1..] == t;
  }

  lemma CompStepsText(prefix: Option<string>, c: Comp, t: Path)
    requires GoodName(c.name)
    ensures PathText(prefix, CompSteps(c) + t) ==
            if t == [] then Lead(prefix) + CompText(c) else PathText(Some(Lead(prefix) + CompText(c)), t)
  {
    var named := Lead(prefix) + c.name;
    assert ExtendText(prefix, Name(c.name)) == named;
    assert named != "" by {
      assert c.name != "";
    }
    match c.index
    case None =>
      assert CompSteps(c) == [Name(c.name)] && Lead(prefix) + CompText(c) == named;
      PathTextCons(prefix, Name(c.name), t);
    case Some(i) =>
      ConcatAssociates([Name(c.name)], [Idx(i)], t);
      PathTextCons(prefix, Name(c.name), [Idx(i)] + t);
      PathTextCons(Some(named), Idx(i), t);
      IndexText(Lead(prefix), c, i);
  }

  lemma IndexText(lead: string, c: Comp, i: nat)
    requires c.index == Some(i)
    ensures ExtendText(Some(lead + c.name), Idx(i)) == lead + CompText(c)
  {
    assert lead + c.name + "[" + NatText(i) + "]" == lead + (c.name + ("[" + NatText(i) + "]"));
  }

  lemma LeadConcat(a: string, b: string, c: string)
    ensures a + b + ">" + c == a + (b + ">" + c)
  {
  }

  /** Printing a path step by step is printing its components, joined by the delimiter. */
  lemma {:induction false} PathTextIsCompsText(prefix: Option<string>, p: seq<Comp>)
    requires GoodComps(p)
    ensures PathText(prefix, StepsOf(p)) == Lead(prefix) + CompsText(p)
    decreases |p|
  {
    assert GoodComp(p[0]);
    CompStepsText(prefix, p[0], StepsOf(p[1..]));
    if |p| == 1 {
      assert StepsOf(p[1..]) == [];
    } else {
      var lead := Lead(prefix) + CompText(p[0]);
      PathTextIsCompsText(Some(lead), p[1..]);
      LeadConcat(Lead(prefix), CompText(p[0]), CompsText(p[1..]));
    }
  }

  /** A printed key splits back into the components, and so into the path, it was printed from. */
  lemma {:induction false} KeyRoundTrip(s: Path)
    requires GoodSteps(s)
    ensures Comps(KeyOf(s)) == Group(s) && GoodComps(Group(s)) && StepsOf(Comps(KeyOf(s))) == s
  {
    GroupSteps(s);
    PathTextIsCompsText(None, Group(s));
    assert "" + CompsText(Group(s)) == CompsText(Group(s));
    CompsRoundTrip(Group(s));
  }

  lemma {:induction false} KeysDistinct(s: Path, t: Path)
    requires GoodSteps(s) && GoodSteps(t) && KeyOf(s) == KeyOf(t)
    ensures s == t
  {
    KeyRoundTrip(s);
    KeyRoundTrip(t);
  }

  /** The higher digits come first. */
  lemma NumberByExample()
    ensures NatText(120) == "120" && TextNat("120") == 120
  {
    assert NatText(12) == "12";
    assert TextNat("1") == 1 && TextNat("12") == 12;
  }
}
