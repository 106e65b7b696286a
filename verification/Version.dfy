/** `version_check`: versions are compared digit by digit, as the lists of the digits in their texts. */
module Version {
  import opened Text

  type Digit = n: int | 0 <= n <= 9

  function DigitOf(c: char): Digit
    requires IsDigit(c)
  {
    c as int - '0' as int
  }

  function Digits(s: string): seq<Digit> {
    if s == "" then [] else (if IsDigit(s[0]) then [DigitOf(s[0])] else []) + Digits(s[1..])
  }

  method GetDigits(s: string) returns (digits: seq<Digit>)
    ensures digits == Digits(s)
  {
    digits := [];
    for i := 0 to |s|
      invariant Digits(s) == digits + Digits(s[i..])
    {
      assert s[i..][0] == s[i] && s[i..][1..] == s[i + 1..];
      if IsDigit(s[i]) {
        digits := digits + [DigitOf(s[i])];
      }
    }
    assert s[|s|..] == "";
  }

  /** Lexicographic comparison: the first difference decides, a proper prefix is smaller. */
  function Compare(a: seq<Digit>, b: seq<Digit>): int
    decreases |a|
  {
    if a == [] then (if b == [] then 0 else -1)
    else if b == [] then 1
    else if a[0] < b[0] then -1
    else if a[0] > b[0] then 1
    else Compare(a[1..], b[1..])
  }

  /** Python's `zip_longest` with fill value -1. */
  function At(digits: seq<Digit>, i: nat): int {
    if i < |digits| then digits[i] else -1
  }

  method VersionCheck(deployed: string, release: string) returns (ret: int)
    ensures ret == Compare(Digits(deployed), Digits(release))
  {
    ret := 0;
    if deployed == release {
      CompareZero(Digits(deployed), Digits(release));
      return;
    }
    var a := GetDigits(deployed);
    var b := GetDigits(release);
    var n := if |a| < |b| then |b| else |a|;
    for i := 0 to n
      invariant i <= |a| && i <= |b|
      invariant Compare(a, b) == Compare(a[i..], b[i..])
    {
      if At(a, i) < At(b, i) {
        return -1;
      } else if At(a, i) > At(b, i) {
        return 1;
      }
      assert a[i..][1..] == a[i + 1..] && b[i..][1..] == b[i + 1..];
    }
  }

  // ----- a total preorder -----

  lemma {:induction false} CompareZero(a: seq<Digit>, b: seq<Digit>)
    ensures Compare(a, b) == 0 <==> a == b
  {
    if a != [] && b != [] {
      CompareZero(a[1..], b[1..]);
      assert a == [a[0]] + a[1..] && b == [b[0]] + b[1..];
    }
  }

  lemma {:induction false} CompareSwaps(a: seq<Digit>, b: seq<Digit>)
    ensures Compare(b, a) == -Compare(a, b)
  {
    if a != [] && b != [] {
      CompareSwaps(a[1..], b[1..]);
    }
  }

  lemma {:induction false} CompareTransitive(a: seq<Digit>, b: seq<Digit>, c: seq<Digit>)
    requires Compare(a, b) <= 0 && Compare(b, c) <= 0
    ensures Compare(a, c) <= 0
    ensures Compare(a, c) == 0 ==> Compare(a, b) == 0 && Compare(b, c) == 0
  {
    if a != [] && b != [] && c != [] && a[0] == b[0] == c[0] {
      CompareTransitive(a[1..], b[1..], c[1..]);
    }
  }

  /** Older means: either the digits end where the other's go on, or the first different digit is the smaller one. */
  lemma {:induction false} OlderExactly(a: seq<Digit>, b: seq<Digit>)
    ensures Compare(a, b) == -1 <==> a < b || exists i: nat :: SmallerAt(a, b, i)
    ensures Compare(a, b) == 1 <==> b < a || exists i: nat :: SmallerAt(b, a, i)
    ensures Compare(a, b) in {-1, 0, 1}
    decreases |a|
  {
    if a == [] || b == [] {
    } else if a[0] != b[0] {
      FirstDecides(a, b);
      FirstDecides(b, a);
    } else {
      OlderExactly(a[1..], b[1..]);
      LaterDecides(a, b);
      LaterDecides(b, a);
    }
  }

  // ----- versions as fields -----

  /** A number in a version, most significant digit first. */
  type Field = seq<Digit>

  function Number(f: Field): nat {
    if f == [] then 0 else 10 * Number(f[..|f| - 1]) + f[|f| - 1]
  }

  function FieldText(f: Field): string {
    if f == [] then "" else [('0' as int + f[0]) as char] + FieldText(f[1..])
  }

  predicate NoDigit(s: string) {
    forall k :: 0 <= k < |s| ==> !IsDigit(s[k])
  }

  /** A version text: each field after some text without digits. */
  function Render(leads: seq<string>, fs: seq<Field>): string
    requires |leads| == |fs|
  {
    if fs == [] then "" else leads[0] + FieldText(fs[0]) + Render(leads[1..], fs[1..])
  }

  function Joined(fs: seq<Field>): seq<Digit> {
    if fs == [] then [] else fs[0] + Joined(fs[1..])
  }

  lemma {:induction false} DigitsConcat(s: string, t: string)
    ensures Digits(s + t) == Digits(s) + Digits(t)
  {
    if s == "" {
      assert s + t == t;
    } else {
      assert (s + t)[1..] == s[1..] + t;
      DigitsConcat(s[1..], t);
      ConcatAssociates(if IsDigit(s[0]) then [DigitOf(s[0])] else [], Digits(s[1..]), Digits(t));
    }
  }

  lemma {:induction false} DigitsOfField(f: Field)
    ensures Digits(FieldText(f)) == f
  {
    if f != [] {
      assert FieldText(f)[1..] == FieldText(f[1..]);
      DigitsOfField(f[1..]);
    }
  }

  lemma {:induction false} DigitsOfLead(s: string)
    requires NoDigit(s)
    ensures Digits(s) == []
  {
    if s != "" {
      DigitsOfLead(s[1..]);
    }
  }

  /** Whatever separates the fields, only their digits are compared. */
  lemma {:induction false} DigitsOfVersion(leads: seq<string>, fs: seq<Field>)
    requires |leads| == |fs| && forall i :: 0 <= i < |leads| ==> NoDigit(leads[i])
    ensures Digits(Render(leads, fs)) == Joined(fs)
  {
    if fs != [] {
      DigitsOfVersion(leads[1..], fs[1..]);
      DigitsConcat(leads[0] + FieldText(fs[0]), Render(leads[1..], fs[1..]));
      DigitsConcat(leads[0], FieldText(fs[0]));
      DigitsOfLead(leads[0]);
      DigitsOfField(fs[0]);
    }
  }

  lemma {:induction false} JoinedConcat(fs: seq<Field>, gs: seq<Field>)
    ensures Joined(fs + gs) == Joined(fs) + Joined(gs)
  {
    if fs == [] {
      assert fs + gs == gs;
    } else {
      assert (fs + gs)[1..] == fs[1..] + gs;
      JoinedConcat(fs[1..], gs);
      ConcatAssociates(fs[0], Joined(fs[1..]), Joined(gs));
    }
  }

  /** A version is older than one that begins with its fields and has more. */
  lemma InitialFieldsAreOlder(leads: seq<string>, fs: seq<Field>, longer: seq<string>, more: seq<Field>)
    requires |leads| == |fs| && |longer| == |fs + more|
    requires forall i :: 0 <= i < |leads| ==> NoDigit(leads[i])
    requires forall i :: 0 <= i < |longer| ==> NoDigit(longer[i])
    requires more != [] && more[0] != []
    ensures Compare(Digits(Render(leads, fs)), Digits(Render(longer, fs + more))) == -1
    ensures Compare(Digits(Render(longer, fs + more)), Digits(Render(leads, fs))) == 1
  {
    DigitsOfVersion(leads, fs);
    DigitsOfVersion(longer, fs + more);
    JoinedConcat(fs, more);
    OlderExactly(Joined(fs), Joined(fs) + Joined(more));
    OlderExactly(Joined(fs) + Joined(more), Joined(fs));
  }

  /** Field by field, as numbers. */
  function CompareFields(fs: seq<Field>, gs: seq<Field>): int
    requires |fs| == |gs|
  {
    if fs == [] then 0
    else if Number(fs[0]) < Number(gs[0]) then -1
    else if Number(fs[0]) > Number(gs[0]) then 1
    else CompareFields(fs[1..], gs[1..])
  }

  lemma {:induction false} NumberSplit(f: Field, g: Field)
    ensures Number(f + g) == Number(f) * Pow10(|g|) + Number(g)
    decreases |g|
  {
    if g == [] {
      assert f + g == f;
    } else {
      var h := g[..|g| - 1];
      assert (f + g)[..|f + g| - 1] == f + h;
      NumberSplit(f, h);
      Shift(Number(f), Pow10(|h|), Number(h), g[|g| - 1]);
    }
  }

  lemma Shift(a: nat, p: nat, n: nat, d: nat)
    ensures 10 * (a * p + n) + d == a * (10 * p) + (10 * n + d)
  {
  }

  function Pow10(n: nat): nat {
    if n == 0 then 1 else 10 * Pow10(n - 1)
  }

  lemma {:induction false} NumberBound(f: Field)
    ensures Number(f) < Pow10(|f|)
  {
    if f != [] {
      NumberBound(f[..|f| - 1]);
    }
  }

  lemma NumberHead(f: Field)
    requires f != []
    ensures Number(f) == f[0] * Pow10(|f| - 1) + Number(f[1..])
  {
    NumberSplit([f[0]], f[1..]);
    assert f == [f[0]] + f[1..];
    assert [f[0]][..0] == [];
    assert Number([f[0]]) == f[0];
  }

  /** Numbers of equal width compare like their digits. */
  lemma {:induction false} EqualWidth(f: Field, g: Field, s: seq<Digit>, t: seq<Digit>)
    requires |f| == |g|
    ensures Compare(f + s, g + t) ==
            if Number(f) < Number(g) then -1 else if Number(f) > Number(g) then 1 else Compare(s, t)
  {
    if f == [] {
      assert f + s == s && g + t == t;
    } else {
      assert (f + s)[1..] == f[1..] + s && (g + t)[1..] == g[1..] + t;
      NumberHead(f);
      NumberHead(g);
      NumberBound(f[1..]);
      NumberBound(g[1..]);
      if f[0] == g[0] {
        EqualWidth(f[1..], g[1..], s, t);
      } else if f[0] < g[0] {
        Leading(f[0], g[0], Number(f[1..]), Number(g[1..]), Pow10(|f| - 1));
      } else {
        Leading(g[0], f[0], Number(g[1..]), Number(f[1..]), Pow10(|f| - 1));
      }
    }
  }

  lemma Leading(x: int, y: int, u: nat, v: nat, p: nat)
    requires x < y && u < p
    ensures x * p + u < y * p + v
  {
    assert (x + 1) * p <= y * p;
  }

  /** Where corresponding fields have equal width, the check is the numeric order of the fields. */
  lemma {:induction false} AgreesOnEqualWidths(fs: seq<Field>, gs: seq<Field>)
    requires |fs| == |gs| && forall i :: 0 <= i < |fs| ==> |fs[i]| == |gs[i]|
    ensures Compare(Joined(fs), Joined(gs)) == CompareFields(fs, gs)
  {
    if fs != [] {
      AgreesOnEqualWidths(fs[1..], gs[1..]);
      EqualWidth(fs[0], gs[0], Joined(fs[1..]), Joined(gs[1..]));
    }
  }

  /** A number as it is usually written. */
  predicate Plain(f: Field) {
    f != [] && (f[0] != 0 || |f| == 1)
  }

  /** `fs` is a version with fields of these widths. */
  predicate HasWidths(fs: seq<Field>, ws: seq<nat>) {
    |fs| == |ws| && forall i :: 0 <= i < |ws| ==> Plain(fs[i]) && |fs[i]| == ws[i]
  }

  /** All versions of the one shape and all of the other are put in the numeric order of their fields. */
  ghost predicate WidthsAgree(vs: seq<nat>, ws: seq<nat>)
    requires |vs| == |ws|
  {
    forall fs, gs :: HasWidths(fs, vs) && HasWidths(gs, ws) ==>
      Compare(Joined(fs), Joined(gs)) == CompareFields(fs, gs)
  }

  /** Versions of two shapes can be mixed without misordering any pair exactly when the shapes are equal. */
  lemma WidthsAgreeIffEqual(vs: seq<nat>, ws: seq<nat>)
    requires |vs| == |ws| && forall i :: 0 <= i < |vs| ==> vs[i] > 0 && ws[i] > 0
    ensures WidthsAgree(vs, ws) <==> vs == ws
  {
    if vs == ws {
      forall fs, gs | HasWidths(fs, vs) && HasWidths(gs, ws)
        ensures Compare(Joined(fs), Joined(gs)) == CompareFields(fs, gs)
      {
        AgreesOnEqualWidths(fs, gs);
      }
    } else {
      var fs, gs := MisorderedPair(vs, ws);
    }
  }

  /** Equal up to the first different width; there the longer number is the larger one and begins with the smaller
      digit. */
  lemma {:induction false} MisorderedPair(vs: seq<nat>, ws: seq<nat>) returns (fs: seq<Field>, gs: seq<Field>)
    requires |vs| == |ws| && vs != ws && forall i :: 0 <= i < |vs| ==> vs[i] > 0 && ws[i] > 0
    ensures HasWidths(fs, vs) && HasWidths(gs, ws)
    ensures Compare(Joined(fs), Joined(gs)) != CompareFields(fs, gs)
    decreases |vs|
  {
    var v, w := vs[0], ws[0];
    if v == w {
      var fs', gs' := MisorderedPair(vs[1..], ws[1..]);
      fs, gs := [Nines(v)] + fs', [Nines(v)] + gs';
      assert fs[1..] == fs' && gs[1..] == gs';
      EqualWidth(Nines(v), Nines(v), Joined(fs'), Joined(gs'));
    } else {
      var f := if v < w then Nines(v) else OneAndZeros(v);
      var g := if v < w then OneAndZeros(w) else Nines(w);
      fs, gs := [f] + AllNines(vs[1..]), [g] + AllNines(ws[1..]);
      assert Joined(fs)[0] == f[0] && Joined(gs)[0] == g[0];
      if v < w {
        NinesBelow(v, w);
      } else {
        NinesBelow(w, v);
      }
    }
  }

  /** A version of the given widths. */
  function AllNines(ws: seq<nat>): (fs: seq<Field>)
    requires forall i :: 0 <= i < |ws| ==> ws[i] > 0
    ensures HasWidths(fs, ws)
  {
    seq(|ws|, i requires 0 <= i < |ws| => Nines(ws[i]))
  }

  function Nines(n: nat): (f: Field)
    ensures |f| == n && (n > 0 ==> Plain(f) && f[0] == 9)
  {
    seq(n, _ => 9)
  }

  function OneAndZeros(n: nat): (f: Field)
    requires n > 0
    ensures |f| == n && Plain(f) && f[0] == 1
  {
    [1] + seq(n - 1, _ => 0)
  }

  lemma NinesBelow(v: nat, w: nat)
    requires 0 < v < w
    ensures Number(Nines(v)) < Number(OneAndZeros(w))
  {
    NumberBound(Nines(v));
    NumberHead(OneAndZeros(w));
    Pow10Monotone(v, w - 1);
  }

  lemma {:induction false} Pow10Monotone(m: nat, n: nat)
    requires m <= n
    ensures Pow10(m) <= Pow10(n)
  {
    if m < n {
      Pow10Monotone(m, n - 1);
    }
  }

  lemma DigitsFrom(s: string, i: nat)
    requires i < |s|
    ensures Digits(s[i..]) == (if IsDigit(s[i]) then [DigitOf(s[i])] else []) + Digits(s[i + 1..])
  {
    assert s[i..][1..] == s[i + 1..];
  }

  lemma DigitsOfTen()
    ensures Digits("2.0.10") == [2, 0, 1, 0]
  {
    var s := "2.0.10";
    assert s[0..] == s && s[6..] == "";
    DigitsFrom(s, 5);
    DigitsFrom(s, 4);
    DigitsFrom(s, 3);
    DigitsFrom(s, 2);
    DigitsFrom(s, 1);
    DigitsFrom(s, 0);
  }

  lemma DigitsOfNine()
    ensures Digits("2.0.9") == [2, 0, 9]
  {
    var s := "2.0.9";
    assert s[0..] == s && s[5..] == "";
    DigitsFrom(s, 4);
    DigitsFrom(s, 3);
    DigitsFrom(s, 2);
    DigitsFrom(s, 1);
    DigitsFrom(s, 0);
  }

  /** 2.0.10 counts as older than 2.0.9. */
  lemma TenBeforeNine()
    ensures Compare(Digits("2.0.10"), Digits("2.0.9")) == -1
    ensures CompareFields([[2], [0], [1, 0]], [[2], [0], [9]]) == 1
  {
    DigitsOfTen();
    DigitsOfNine();
    EqualWidth([2, 0], [2, 0], [1, 0], [9]);
    assert [2, 0, 1, 0] == [2, 0] + [1, 0] && [2, 0, 9] == [2, 0] + [9];
    NumberHead([1, 0]);
  }
}
