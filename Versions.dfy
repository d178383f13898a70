/** The self-update check: reading the `@version` tag of the fetched plugin
    source, comparing dotted version strings, and the gate that decides
    whether the fetched source replaces the installed one. Fetching and
    writing the file are outside the model; the fetch result is an input. */
module Versions {
  import opened Wrappers
  import opened Text

  // ---------------------------------------------------------------------
  // `String(v).split(".")`

  /** `s.split(".")`: the pieces between dots; an empty string gives [""]. */
  function Split(s: string): (parts: seq<string>)
    ensures |parts| >= 1
    ensures forall i :: 0 <= i < |parts| ==> '.' !in parts[i]
    decreases |s|
  {
    if s == [] then [""]
    else
      var rest := Split(s[1..]);
      if s[0] == '.' then [""] + rest else [[s[0]] + rest[0]] + rest[1..]
  }

  /** The pieces after the first, each with the dot before it. */
  function DotTail(parts: seq<string>): string {
    if parts == [] then "" else "." + parts[0] + DotTail(parts[1..])
  }

  /** `parts.join(".")`. */
  function Join(parts: seq<string>): string
    requires |parts| >= 1
  {
    parts[0] + DotTail(parts[1..])
  }

  /** A piece without dots splits to itself. */
  lemma {:induction false} SplitDotFree(s: string)
    requires '.' !in s
    ensures Split(s) == [s]
    decreases |s|
  {
    if s != [] {
      assert '.' !in s[1..] by { assert forall k :: 0 <= k < |s[1..]| ==> s[1..][k] == s[k + 1]; }
      SplitDotFree(s[1..]);
      assert [s[0]] + s[1..] == s;
    }
  }

  /** Split of a text that starts with the character x. */
  lemma SplitCons(x: char, t: string)
    ensures Split([x] + t) ==
      if x == '.' then [""] + Split(t) else [[x] + Split(t)[0]] + Split(t)[1..]
  {
    var s := [x] + t;
    assert s[0] == x && s[1..] == t;
  }

  /** The sequence algebra behind SplitAtDotCons. */
  lemma ConsPieces(x: char, sa: seq<string>, sc: seq<string>)
    requires |sa| >= 1
    ensures [[x] + (sa + sc)[0]] + (sa + sc)[1..] == ([[x] + sa[0]] + sa[1..]) + sc
    ensures [""] + (sa + sc) == ([""] + sa) + sc
  {
    assert (sa + sc)[0] == sa[0];
    assert (sa + sc)[1..] == sa[1..] + sc;
  }

  /** One character in front of a text that splits at a dot keeps the
      split at that dot. */
  lemma SplitAtDotCons(x: char, t: string, c: string)
    requires Split(t + "." + c) == Split(t) + Split(c)
    ensures Split([x] + t + "." + c) == Split([x] + t) + Split(c)
  {
    assert [x] + t + "." + c == [x] + (t + "." + c);
    SplitCons(x, t + "." + c);
    SplitCons(x, t);
    ConsPieces(x, Split(t), Split(c));
  }

  /** Splitting at a dot splits the two sides apart. */
  lemma {:induction false} SplitAtDot(a: string, c: string)
    ensures Split(a + "." + c) == Split(a) + Split(c)
    decreases |a|
  {
    if a == [] {
      assert a + "." + c == ['.'] + c;
      SplitCons('.', c);
    } else {
      SplitAtDot(a[1..], c);
      SplitAtDotCons(a[0], a[1..], c);
      assert [a[0]] + a[1..] == a;
    }
  }

  /** Split undoes Join on dot-free pieces. */
  lemma {:induction false} SplitJoin(parts: seq<string>)
    requires |parts| >= 1 && forall i :: 0 <= i < |parts| ==> '.' !in parts[i]
    ensures Split(Join(parts)) == parts
    decreases |parts|
  {
    SplitDotFree(parts[0]);
    if |parts| > 1 {
      var rest := parts[1..];
      assert DotTail(rest) == "." + Join(rest);
      assert Join(parts) == parts[0] + "." + Join(rest);
      SplitJoin(rest);
      SplitAtDot(parts[0], Join(rest));
    } else {
      assert Join(parts) == parts[0];
    }
  }

  // ---------------------------------------------------------------------
  // `parseInt(n, 10) || 0`

  function TrimStart(s: string): (t: string)
    ensures |t| <= |s| && t == s[|s| - |t|..]
    ensures t != [] ==> !IsJsSpace(t[0])
  {
    if s != [] && IsJsSpace(s[0]) then TrimStart(s[1..]) else s
  }

  predicate AllDigits(s: string) {
    forall k :: 0 <= k < |s| ==> IsDigit(s[k])
  }

  /** The number of leading decimal digits. */
  function DigitPrefix(s: string): (n: nat)
    ensures n <= |s| && AllDigits(s[..n]) && (n < |s| ==> !IsDigit(s[n]))
  {
    if s != [] && IsDigit(s[0]) then
      var n := 1 + DigitPrefix(s[1..]);
      assert forall k :: 1 <= k < n ==> s[..n][k] == s[1..][..n - 1][k - 1];
      n
    else 0
  }

  /** The value of a string of decimal digits. */
  function DecimalValue(ds: string): nat
    requires AllDigits(ds)
  {
    if ds == [] then 0 else DecimalValue(ds[..|ds| - 1]) * 10 + (ds[|ds| - 1] as int - '0' as int)
  }

  /** The unsigned part after optional leading white space and sign. */
  function Unsigned(s: string): string {
    var t := TrimStart(s);
    if t != [] && (t[0] == '+' || t[0] == '-') then t[1..] else t
  }

  /** Leading white space is dropped up to the first other character. */
  lemma {:induction false} TrimStartOf(s: string, ws: string, x: string)
    requires s == ws + x && AllJsSpace(ws) && (x == [] || !IsJsSpace(x[0]))
    ensures TrimStart(s) == x
    decreases |ws|
  {
    if ws != [] {
      assert s[0] == ws[0] && s[1..] == ws[1..] + x;
      assert AllJsSpace(ws[1..]) by { assert forall k :: 0 <= k < |ws| - 1 ==> ws[1..][k] == ws[k + 1]; }
      TrimStartOf(s[1..], ws[1..], x);
    } else {
      assert s == x;
    }
  }

  /** The digit prefix of digits followed by a non-digit is those digits. */
  lemma {:induction false} DigitPrefixOf(p: string, rest: string)
    requires AllDigits(p) && (rest == [] || !IsDigit(rest[0]))
    ensures DigitPrefix(p + rest) == |p|
    decreases |p|
  {
    if p != [] {
      assert (p + rest)[1..] == p[1..] + rest;
      assert AllDigits(p[1..]) by { assert forall k :: 0 <= k < |p| - 1 ==> p[1..][k] == p[k + 1]; }
      DigitPrefixOf(p[1..], rest);
    } else {
      assert p + rest == rest;
    }
  }

  /** `parseInt` reads white space, an optional sign and the leading digits,
      and ignores what follows them: " -2" gives -2, "3-beta" gives 3. */
  lemma ParseIntOrZeroOfPrefix(ws: string, sign: string, p: string, rest: string)
    requires AllJsSpace(ws) && (sign == "" || sign == "+" || sign == "-")
    requires p != [] && AllDigits(p) && (rest == [] || !IsDigit(rest[0]))
    ensures sign == "-" ==> ParseIntOrZero(ws + sign + p + rest) == -(DecimalValue(p) as int)
    ensures sign != "-" ==> ParseIntOrZero(ws + sign + p + rest) == DecimalValue(p)
  {
    var s := ws + sign + p + rest;
    var x := sign + p + rest;
    UnsignedOfPrefix(s, ws, sign, p, rest);
    DigitPrefixOf(p, rest);
    assert (p + rest)[..|p|] == p;
    assert (p + rest)[0] == p[0];
    assert IsDigit(p[0]);
    if sign == "" {
      assert x[0] == p[0];
    } else {
      assert x[0] == sign[0];
    }
  }

  /** After the white space and the sign comes the unsigned text. */
  lemma UnsignedOfPrefix(s: string, ws: string, sign: string, p: string, rest: string)
    requires AllJsSpace(ws) && (sign == "" || sign == "+" || sign == "-")
    requires p != [] && AllDigits(p)
    requires s == ws + sign + p + rest
    ensures TrimStart(s) == sign + p + rest && Unsigned(s) == p + rest
  {
    var x := sign + p + rest;
    SignThenDigits(x, sign, p, rest);
    assert s == ws + x;
    TrimStartOf(s, ws, x);
  }

  /** An optional sign, then digits: the text starts with no white space,
      and with a sign exactly when there is one. */
  lemma SignThenDigits(x: string, sign: string, p: string, rest: string)
    requires (sign == "" || sign == "+" || sign == "-") && p != [] && AllDigits(p)
    requires x == sign + p + rest
    ensures x != [] && !IsJsSpace(x[0])
    ensures (x[0] == '+' || x[0] == '-') == (sign != "")
    ensures sign != "" ==> x[1..] == p + rest
    ensures sign == "" ==> x == p + rest
  {
    assert IsDigit(p[0]);
    if sign == "" {
      assert x[0] == p[0];
    } else {
      assert x[0] == sign[0];
      assert x[1..] == p + rest;
    }
  }

  /** A string of digits is its own digit prefix. */
  lemma {:induction false} DigitPrefixOfDigits(s: string)
    requires AllDigits(s)
    ensures DigitPrefix(s) == |s|
  {
    if s != [] {
      assert AllDigits(s[1..]) by { assert forall k :: 0 <= k < |s| - 1 ==> s[1..][k] == s[k + 1]; }
      DigitPrefixOfDigits(s[1..]);
    }
  }

  /** `parseInt(s, 10) || 0`: the decimal prefix after white space and an
      optional sign; no digits (NaN) gives 0. */
  function ParseIntOrZero(s: string): (n: int)
    ensures var u := Unsigned(s); u == [] || !IsDigit(u[0]) ==> n == 0
    ensures AllDigits(s) ==> n == DecimalValue(s)
  {
    var t := TrimStart(s);
    var u := Unsigned(s);
    var digits := u[..DigitPrefix(u)];
    if AllDigits(s) && s != [] then
      assert !IsJsSpace(s[0]) && s[0] != '+' && s[0] != '-' by { assert IsDigit(s[0]); }
      assert t == s && u == s;
      DigitPrefixOfDigits(s);
      assert digits == s;
      DecimalValue(digits)
    else if u == [] || !IsDigit(u[0]) then
      0
    else
      var v: int := DecimalValue(digits);
      if t != [] && t[0] == '-' then -v else v
  }

  /** The numeric components of a version string. */
  function Components(v: string): seq<int> {
    var parts := Split(v);
    seq(|parts|, i requires 0 <= i < |parts| => ParseIntOrZero(parts[i]))
  }

  // ---------------------------------------------------------------------
  // `compareVersions`

  /** `p[i] ?? 0`: a missing component counts as 0. */
  function At(p: seq<int>, i: nat): int {
    if i < |p| then p[i] else 0
  }

  function Rest(p: seq<int>): seq<int> {
    if p == [] then [] else p[1..]
  }

  /** Component-wise comparison, the shorter list padded with zeros. */
  function Cmp(pa: seq<int>, pb: seq<int>): (c: int)
    ensures -1 <= c <= 1
    decreases |pa| + |pb|
  {
    if pa == [] && pb == [] then 0
    else if At(pa, 0) > At(pb, 0) then 1
    else if At(pa, 0) < At(pb, 0) then -1
    else Cmp(Rest(pa), Rest(pb))
  }

  /** The comparison `compareVersions` makes of two version strings. */
  function VersionCompare(a: string, b: string): int {
    Cmp(Components(a), Components(b))
  }

  function Drop(p: seq<int>, i: nat): seq<int> {
    if i < |p| then p[i..] else []
  }

  /** One step of the comparison, from component i on. */
  lemma CmpFrom(pa: seq<int>, pb: seq<int>, i: nat)
    requires i < |pa| || i < |pb|
    ensures Cmp(Drop(pa, i), Drop(pb, i)) ==
      if At(pa, i) > At(pb, i) then 1
      else if At(pa, i) < At(pb, i) then -1
      else Cmp(Drop(pa, i + 1), Drop(pb, i + 1))
  {
    assert Drop(pa, i) != [] || Drop(pb, i) != [];
    assert At(Drop(pa, i), 0) == At(pa, i) && At(Drop(pb, i), 0) == At(pb, i);
    assert Rest(Drop(pa, i)) == Drop(pa, i + 1) && Rest(Drop(pb, i)) == Drop(pb, i + 1);
  }

  /** `compareVersions(a, b)`: the loop over the longer component list. */
  method CompareVersions(a: string, b: string) returns (c: int)
    ensures c == VersionCompare(a, b)
  {
    var pa := Components(a);
    var pb := Components(b);
    var len := if |pa| >= |pb| then |pa| else |pb|;
    assert Drop(pa, 0) == pa && Drop(pb, 0) == pb;
    for i := 0 to len
      invariant Cmp(pa, pb) == Cmp(Drop(pa, i), Drop(pb, i))
    {
      CmpFrom(pa, pb, i);
      var da := At(pa, i);
      var db := At(pb, i);
      if da > db {
        return 1;
      }
      if da < db {
        return -1;
      }
    }
    assert Drop(pa, len) == [] && Drop(pb, len) == [];
    return 0;
  }

  // ---------------------------------------------------------------------
  // What the comparison means

  /** Components 0 .. k-1 agree, missing ones read as 0. */
  predicate AgreeBelow(pa: seq<int>, pb: seq<int>, k: nat) {
    forall i: nat :: i < k ==> At(pa, i) == At(pb, i)
  }

  lemma AtRest(p: seq<int>, i: nat)
    ensures At(Rest(p), i) == At(p, i + 1)
  {
  }

  /** With equal first components, all components agree exactly when the
      rests agree. */
  lemma ShiftAgree(pa: seq<int>, pb: seq<int>)
    requires At(pa, 0) == At(pb, 0)
    ensures (forall i: nat :: At(Rest(pa), i) == At(Rest(pb), i)) <==>
      (forall i: nat :: At(pa, i) == At(pb, i))
  {
    if forall i: nat :: At(Rest(pa), i) == At(Rest(pb), i) {
      forall i: nat
        ensures At(pa, i) == At(pb, i)
      {
        if i > 0 {
          AtRest(pa, i - 1);
          AtRest(pb, i - 1);
        }
      }
    }
    if forall i: nat :: At(pa, i) == At(pb, i) {
      forall i: nat
        ensures At(Rest(pa), i) == At(Rest(pb), i)
      {
        AtRest(pa, i);
        AtRest(pb, i);
      }
    }
  }

  /** With equal first components, the first k+1 components agree exactly
      when the first k components of the rests agree. */
  lemma ShiftAgreeBelow(pa: seq<int>, pb: seq<int>, k: nat)
    requires At(pa, 0) == At(pb, 0)
    ensures AgreeBelow(Rest(pa), Rest(pb), k) <==> AgreeBelow(pa, pb, k + 1)
  {
    if AgreeBelow(Rest(pa), Rest(pb), k) {
      forall i: nat | i < k + 1
        ensures At(pa, i) == At(pb, i)
      {
        if i > 0 {
          AtRest(pa, i - 1);
          AtRest(pb, i - 1);
        }
      }
    }
    if AgreeBelow(pa, pb, k + 1) {
      forall i: nat | i < k
        ensures At(Rest(pa), i) == At(Rest(pb), i)
      {
        AtRest(pa, i);
        AtRest(pb, i);
      }
    }
  }

  /** With equal first components, a first disagreement where pa is larger
      exists exactly when one exists in the rests. */
  lemma ShiftAbove(pa: seq<int>, pb: seq<int>)
    requires At(pa, 0) == At(pb, 0)
    ensures (exists k: nat :: At(pa, k) > At(pb, k) && AgreeBelow(pa, pb, k)) <==>
      (exists k: nat :: At(Rest(pa), k) > At(Rest(pb), k) && AgreeBelow(Rest(pa), Rest(pb), k))
  {
    if exists k: nat :: At(pa, k) > At(pb, k) && AgreeBelow(pa, pb, k) {
      var k: nat :| At(pa, k) > At(pb, k) && AgreeBelow(pa, pb, k);
      assert k > 0;
      AtRest(pa, k - 1);
      AtRest(pb, k - 1);
      ShiftAgreeBelow(pa, pb, k - 1);
      assert At(Rest(pa), k - 1) > At(Rest(pb), k - 1);
    }
    if exists k: nat :: At(Rest(pa), k) > At(Rest(pb), k) && AgreeBelow(Rest(pa), Rest(pb), k) {
      var k: nat :| At(Rest(pa), k) > At(Rest(pb), k) && AgreeBelow(Rest(pa), Rest(pb), k);
      AtRest(pa, k);
      AtRest(pb, k);
      ShiftAgreeBelow(pa, pb, k);
      assert At(pa, k + 1) > At(pb, k + 1);
    }
  }

  /** With equal first components, a first disagreement where pa is smaller
      exists exactly when one exists in the rests. */
  lemma ShiftBelow(pa: seq<int>, pb: seq<int>)
    requires At(pa, 0) == At(pb, 0)
    ensures (exists k: nat :: At(pa, k) < At(pb, k) && AgreeBelow(pa, pb, k)) <==>
      (exists k: nat :: At(Rest(pa), k) < At(Rest(pb), k) && AgreeBelow(Rest(pa), Rest(pb), k))
  {
    if exists k: nat :: At(pa, k) < At(pb, k) && AgreeBelow(pa, pb, k) {
      var k: nat :| At(pa, k) < At(pb, k) && AgreeBelow(pa, pb, k);
      assert k > 0;
      AtRest(pa, k - 1);
      AtRest(pb, k - 1);
      ShiftAgreeBelow(pa, pb, k - 1);
      assert At(Rest(pa), k - 1) < At(Rest(pb), k - 1);
    }
    if exists k: nat :: At(Rest(pa), k) < At(Rest(pb), k) && AgreeBelow(Rest(pa), Rest(pb), k) {
      var k: nat :| At(Rest(pa), k) < At(Rest(pb), k) && AgreeBelow(Rest(pa), Rest(pb), k);
      AtRest(pa, k);
      AtRest(pb, k);
      ShiftAgreeBelow(pa, pb, k);
      assert At(pa, k + 1) < At(pb, k + 1);
    }
  }

  /** The comparison is 0 exactly when every component agrees (zero-padded),
      and 1 exactly when the first disagreeing component is larger in pa. */
  lemma {:induction false} CmpMeaning(pa: seq<int>, pb: seq<int>)
    ensures Cmp(pa, pb) == 0 <==> forall i: nat :: At(pa, i) == At(pb, i)
    ensures Cmp(pa, pb) == 1 <==> exists k: nat :: At(pa, k) > At(pb, k) && AgreeBelow(pa, pb, k)
    ensures Cmp(pa, pb) == -1 <==> exists k: nat :: At(pa, k) < At(pb, k) && AgreeBelow(pa, pb, k)
    decreases |pa| + |pb|
  {
    if pa == [] && pb == [] {
      assert forall i: nat :: At(pa, i) == 0 && At(pb, i) == 0;
    } else if At(pa, 0) != At(pb, 0) {
      assert AgreeBelow(pa, pb, 0);
      forall k: nat | k > 0
        ensures !AgreeBelow(pa, pb, k)
      {
        assert At(pa, 0) != At(pb, 0);
      }
    } else {
      CmpMeaning(Rest(pa), Rest(pb));
      ShiftAgree(pa, pb);
      ShiftAbove(pa, pb);
      ShiftBelow(pa, pb);
    }
  }

  /** Every version is equal to itself. */
  lemma {:induction false} CmpReflexive(p: seq<int>)
    ensures Cmp(p, p) == 0
    decreases |p|
  {
    if p != [] {
      CmpReflexive(Rest(p));
    }
  }

  /** Swapping the arguments negates the comparison. */
  lemma {:induction false} CmpAntisymmetric(pa: seq<int>, pb: seq<int>)
    ensures Cmp(pb, pa) == -Cmp(pa, pb)
    decreases |pa| + |pb|
  {
    if !(pa == [] && pb == []) && At(pa, 0) == At(pb, 0) {
      CmpAntisymmetric(Rest(pa), Rest(pb));
    }
  }

  /** "Not newer than" is transitive. */
  lemma {:induction false} CmpTransitive(pa: seq<int>, pb: seq<int>, pc: seq<int>)
    requires Cmp(pa, pb) <= 0 && Cmp(pb, pc) <= 0
    ensures Cmp(pa, pc) <= 0
    decreases |pa| + |pb| + |pc|
  {
    if pa == [] && pb == [] && pc == [] {
    } else if At(pa, 0) == At(pb, 0) && At(pb, 0) == At(pc, 0) {
      assert Cmp(pa, pb) == Cmp(Rest(pa), Rest(pb)) by {
        if pa == [] && pb == [] { assert Rest(pa) == [] && Rest(pb) == []; }
      }
      assert Cmp(pb, pc) == Cmp(Rest(pb), Rest(pc)) by {
        if pb == [] && pc == [] { assert Rest(pb) == [] && Rest(pc) == []; }
      }
      CmpTransitive(Rest(pa), Rest(pb), Rest(pc));
    }
  }

  /** A trailing zero component changes nothing: "1.2" equals "1.2.0". */
  lemma {:induction false} CmpTrailingZero(pa: seq<int>, pb: seq<int>)
    ensures Cmp(pa + [0], pb) == Cmp(pa, pb)
    decreases |pa| + |pb|
  {
    var qa := pa + [0];
    assert At(qa, 0) == At(pa, 0);
    if pa == [] {
      assert Rest(qa) == [];
      if pb != [] && At(pb, 0) == 0 {
        assert Cmp(qa, pb) == Cmp([], Rest(pb));
      }
    } else {
      assert Rest(qa) == Rest(pa) + [0];
      CmpTrailingZero(Rest(pa), Rest(pb));
    }
  }

  /** Appending a component that reads as 0 (".0", or a non-numeric piece)
      leaves a version equal to the original. */
  lemma MissingComponentIsZero(a: string, c: string)
    requires '.' !in c && ParseIntOrZero(c) == 0
    ensures VersionCompare(a + "." + c, a) == 0
  {
    SplitAtDot(a, c);
    SplitDotFree(c);
    assert Components(a + "." + c) == Components(a) + [0];
    CmpTrailingZero(Components(a), Components(a));
    CmpReflexive(Components(a));
  }

  // ---------------------------------------------------------------------
  // `parseVersionFromSource`: /@version\s+([0-9]+(?:\.[0-9]+){0,3})/i

  const TAG := "@version"

  /** The tag occurs at position i, in any letter case. */
  predicate TagAt(s: string, i: nat) {
    i + |TAG| <= |s| && forall k :: 0 <= k < |TAG| ==> LowerAscii(s[i + k]) == TAG[k]
  }

  /** The length of the white-space run starting at i. */
  function SpaceRun(s: string, i: nat): (n: nat)
    requires i <= |s|
    ensures i + n <= |s| && (i + n < |s| ==> !IsJsSpace(s[i + n]))
    decreases |s| - i
  {
    if i < |s| && IsJsSpace(s[i]) then 1 + SpaceRun(s, i + 1) else 0
  }

  /** The length of the digit run starting at i. */
  function DigitRun(s: string, i: nat): (n: nat)
    requires i <= |s|
    ensures i + n <= |s|
    ensures i + n < |s| ==> !IsDigit(s[i + n])
    decreases |s| - i
  {
    if i < |s| && IsDigit(s[i]) then 1 + DigitRun(s, i + 1) else 0
  }

  /** Every character of the digit run is a digit. */
  lemma {:induction false} DigitRunDigits(s: string, i: nat)
    requires i <= |s|
    ensures forall m :: i <= m < i + DigitRun(s, i) ==> IsDigit(s[m])
    decreases |s| - i
  {
    if i < |s| && IsDigit(s[i]) {
      DigitRunDigits(s, i + 1);
    }
  }

  /** Position m, below e, holds a digit, or a dot with a digit after it. */
  predicate DigitOrDot(s: string, m: nat, e: nat)
    requires m < e <= |s|
  {
    IsDigit(s[m]) || (s[m] == '.' && m + 1 < e && IsDigit(s[m + 1]))
  }

  /** Positions i .. e-1 hold digits, and dots each followed by a digit. */
  predicate DigitsAndDots(s: string, i: nat, e: nat)
    requires i <= e <= |s|
  {
    forall m: nat :: i <= m < e ==> DigitOrDot(s, m, e)
  }

  /** Where up to k greedy ".digits" groups starting at i end. */
  function DotGroups(s: string, i: nat, k: nat): (e: nat)
    requires i <= |s|
    ensures i <= e <= |s|
    decreases k
  {
    if k > 0 && i < |s| && s[i] == '.' && DigitRun(s, i + 1) > 0 then
      DotGroups(s, i + 1 + DigitRun(s, i + 1), k - 1)
    else i
  }

  /** What the dot groups cover is digits, and dots each followed by a
      digit. */
  lemma {:induction false} DotGroupsDigitsAndDots(s: string, i: nat, k: nat)
    requires i <= |s|
    ensures DigitsAndDots(s, i, DotGroups(s, i, k))
    decreases k
  {
    if k > 0 && i < |s| && s[i] == '.' && DigitRun(s, i + 1) > 0 {
      var b := i + 1 + DigitRun(s, i + 1);
      var e := DotGroups(s, b, k - 1);
      DotGroupsDigitsAndDots(s, b, k - 1);
      DigitRunDigits(s, i + 1);
      DigitsThenGroups(s, i + 1, b, e);
      assert IsDigit(s[i + 1]);
    }
  }

  /** Digits, each dot followed by a digit, starting with a digit: the text
      the capture group can match. */
  predicate VersionText(v: string) {
    v != [] && IsDigit(v[0]) && DigitsAndDots(v, 0, |v|)
  }

  /** A digit run followed by dot groups is digits and dots throughout. */
  lemma DigitsThenGroups(s: string, a: nat, b: nat, e: nat)
    requires a <= b <= e <= |s|
    requires forall m :: a <= m < b ==> IsDigit(s[m])
    requires DigitsAndDots(s, b, e)
    ensures DigitsAndDots(s, a, e)
  {
    forall m: nat | a <= m < e
      ensures DigitOrDot(s, m, e)
    {
      if m < b {
        assert IsDigit(s[m]);
      }
    }
  }

  /** Digits and dots between a and e stay so in the slice s[a..e]. */
  lemma SliceDigitsAndDots(s: string, a: nat, e: nat)
    requires a <= e <= |s| && DigitsAndDots(s, a, e)
    ensures DigitsAndDots(s[a..e], 0, e - a)
  {
    var v := s[a..e];
    forall m: nat | m < |v|
      ensures DigitOrDot(v, m, |v|)
    {
      assert DigitOrDot(s, a + m, e);
      assert v[m] == s[a + m];
      if m + 1 < |v| {
        assert v[m + 1] == s[a + m + 1];
      }
    }
  }

  /** The match when it starts at position i. */
  function CaptureAt(s: string, i: nat): (r: Option<string>)
    ensures r.Some? ==> VersionText(r.value)
  {
    if !TagAt(s, i) then None
    else
      var j := i + |TAG|;
      var w := SpaceRun(s, j);
      if w == 0 then None
      else CaptureDigits(s, j + w)
  }

  /** The capture group, a digit run and up to three dot groups, at a. */
  function CaptureDigits(s: string, a: nat): (r: Option<string>)
    requires a <= |s|
    ensures r.Some? ==> VersionText(r.value)
  {
    var d := DigitRun(s, a);
    if d == 0 then None
    else
      var e := DotGroups(s, a + d, 3);
      CaptureIsVersionText(s, a, e);
      Some(s[a..e])
  }

  /** The captured text is a version text: a digit run, then dot groups. */
  lemma CaptureIsVersionText(s: string, a: nat, e: nat)
    requires a <= |s| && DigitRun(s, a) > 0
    requires e == DotGroups(s, a + DigitRun(s, a), 3)
    ensures a < e <= |s| && VersionText(s[a..e])
  {
    var d := DigitRun(s, a);
    DigitRunDigits(s, a);
    DotGroupsDigitsAndDots(s, a + d, 3);
    DigitsThenGroups(s, a, a + d, e);
    SliceDigitsAndDots(s, a, e);
    assert s[a..e][0] == s[a];
  }

  /** The leftmost match from position i on. */
  function Scan(s: string, i: nat): (r: Option<string>)
    ensures r.Some? ==> VersionText(r.value)
    decreases |s| - i
  {
    if i >= |s| then None
    else match CaptureAt(s, i)
      case Some(v) => Some(v)
      case None => Scan(s, i + 1)
  }

  /** `parseVersionFromSource(src)`: the version after the first `@version`
      tag, or None (null) when there is none. */
  function ParseVersionFromSource(src: string): (r: Option<string>)
    ensures r.Some? ==> VersionText(r.value)
  {
    Scan(src, 0)
  }

  /** Every piece is a non-empty run of digits. */
  predicate DigitParts(parts: seq<string>) {
    forall i :: 0 <= i < |parts| ==> parts[i] != [] && AllDigits(parts[i])
  }

  /** One to four non-empty runs of digits: what the pattern captures whole. */
  predicate VersionParts(parts: seq<string>) {
    1 <= |parts| <= 4 && DigitParts(parts)
  }

  lemma {:induction false} DigitRunOfPart(s: string, i: nat, p: string)
    requires i + |p| <= |s| && s[i..i + |p|] == p && AllDigits(p)
    requires i + |p| < |s| ==> !IsDigit(s[i + |p|])
    ensures DigitRun(s, i) == |p|
    decreases |p|
  {
    if p != [] {
      assert s[i] == p[0];
      assert s[i + 1..i + |p|] == p[1..];
      assert AllDigits(p[1..]) by { assert forall k :: 0 <= k < |p| - 1 ==> p[1..][k] == p[k + 1]; }
      DigitRunOfPart(s, i + 1, p[1..]);
    }
  }

  /** A tail of pieces is a dot, the first piece, and the tail of the rest. */
  lemma DotTailShape(parts: seq<string>)
    requires parts != [] && DigitParts(parts)
    ensures DotTail(parts) == "." + parts[0] + DotTail(parts[1..])
    ensures DotTail(parts[1..]) == [] || DotTail(parts[1..])[0] == '.'
    ensures parts[0] != [] && AllDigits(parts[0]) && DigitParts(parts[1..])
  {
    assert forall m :: 0 <= m < |parts| - 1 ==> parts[1..][m] == parts[m + 1];
  }

  /** The parts after the first are digit runs too. */
  lemma DigitPartsTail(parts: seq<string>)
    requires parts != [] && DigitParts(parts)
    ensures DigitParts(parts[1..])
  {
    assert forall m :: 0 <= m < |parts| - 1 ==> parts[1..][m] == parts[m + 1];
  }

  /** DotGroups takes the group at i and goes on after it. */
  lemma DotGroupsUnfold(s: string, i: nat, k: nat, j: nat)
    requires k > 0 && i < |s| && s[i] == '.' && DigitRun(s, i + 1) > 0
    requires j == i + 1 + DigitRun(s, i + 1)
    ensures DotGroups(s, i, k) == DotGroups(s, j, k - 1)
  {
  }

  /** The first group of a tail found at position i: a dot, then the digits
      of the first part, then the tail of the rest. */
  lemma TailStep(s: string, i: nat, parts: seq<string>, post: string)
    requires parts != [] && parts[0] != [] && AllDigits(parts[0])
    requires post == [] || !IsDigit(post[0])
    requires i <= |s| && s[i..] == DotTail(parts) + post
    ensures i < |s| && s[i] == '.' && DigitRun(s, i + 1) == |parts[0]| > 0
    ensures i + 1 + |parts[0]| <= |s| && s[i + 1 + |parts[0]|..] == DotTail(parts[1..]) + post
    ensures |DotTail(parts)| == 1 + |parts[0]| + |DotTail(parts[1..])|
  {
    var p := parts[0];
    var t := DotTail(parts[1..]);
    assert DotTail(parts) == "." + p + t;
    TailSlices(s, i, p, t, post);
    TailThenPost(parts[1..], post);
    DigitRunBefore(s, i + 1, p, t + post);
  }

  /** A tail of parts, then text that does not start with a digit, does not
      start with a digit either. */
  lemma TailThenPost(q: seq<string>, post: string)
    requires post == [] || !IsDigit(post[0])
    ensures DotTail(q) + post == [] || !IsDigit((DotTail(q) + post)[0])
  {
    if q != [] {
      assert DotTail(q)[0] == '.';
      assert (DotTail(q) + post)[0] == '.';
    } else {
      assert DotTail(q) + post == post;
    }
  }

  /** The digit run at i is p when p is followed by rest, which does not
      start with a digit. */
  lemma DigitRunBefore(s: string, i: nat, p: string, rest: string)
    requires AllDigits(p) && i + |p| <= |s| && s[i..i + |p|] == p
    requires s[i + |p|..] == rest && (rest == [] || !IsDigit(rest[0]))
    ensures DigitRun(s, i) == |p|
  {
    if i + |p| < |s| {
      assert s[i + |p|] == rest[0];
    }
    DigitRunOfPart(s, i, p);
  }

  /** Where the dot, p and the rest sit when s from i on reads "." + p,
      then t, then post. */
  lemma TailSlices(s: string, i: nat, p: string, t: string, post: string)
    requires i <= |s| && s[i..] == "." + p + t + post
    ensures i + 1 + |p| <= |s| && s[i] == '.'
    ensures s[i + 1..i + 1 + |p|] == p && s[i + 1 + |p|..] == t + post
  {
    var r := s[i..];
    assert r == "." + p + (t + post);
    assert s[i] == r[0];
    assert s[i + 1..i + 1 + |p|] == r[1..1 + |p|];
    assert s[i + 1 + |p|..] == r[1 + |p|..];
  }

  /** The dot groups of a tail of parts, found at position i of s and
      followed by text that does not go on with a digit or a dot, are all
      taken and end where the parts end. */
  lemma {:induction false} DotGroupsAt(s: string, i: nat, parts: seq<string>, post: string, k: nat)
    requires DigitParts(parts) && |parts| <= k
    requires post == [] || (!IsDigit(post[0]) && post[0] != '.')
    requires i <= |s| && s[i..] == DotTail(parts) + post
    ensures DotGroups(s, i, k) == i + |DotTail(parts)|
    decreases |parts|
  {
    if parts != [] {
      var j := i + 1 + |parts[0]|;
      assert j <= |s| && s[j..] == DotTail(parts[1..]) + post && DigitParts(parts[1..]) &&
        |DotTail(parts)| == 1 + |parts[0]| + |DotTail(parts[1..])| &&
        DotGroups(s, i, k) == DotGroups(s, j, k - 1) by {
        assert parts[0] != [] && AllDigits(parts[0]);
        DigitPartsTail(parts);
        TailStep(s, i, parts, post);
        DotGroupsUnfold(s, i, k, j);
      }
      DotGroupsAt(s, j, parts[1..], post, k - 1);
    } else {
      DotGroupsOfEmptyTail(s, i, post, k);
    }
  }

  /** Where no parts are left, no group is taken. */
  lemma DotGroupsOfEmptyTail(s: string, i: nat, post: string, k: nat)
    requires post == [] || post[0] != '.'
    requires i <= |s| && s[i..] == DotTail([]) + post
    ensures DotGroups(s, i, k) == i
  {
    assert s[i..] == post;
    if i < |s| {
      assert s[i] == post[0];
    }
    DotGroupsStop(s, i, k);
  }

  /** No group starts at the end of the text or at a character other than
      a dot. */
  lemma DotGroupsStop(s: string, i: nat, k: nat)
    requires i <= |s| && (i == |s| || s[i] != '.')
    ensures DotGroups(s, i, k) == i
  {
  }

  /** Every character is JavaScript white space. */
  predicate AllJsSpace(ws: string) {
    forall k :: 0 <= k < |ws| ==> IsJsSpace(ws[k])
  }

  /** The white-space run at i is exactly ws when a non-space follows it. */
  lemma {:induction false} SpaceRunOf(s: string, i: nat, ws: string)
    requires i + |ws| <= |s| && s[i..i + |ws|] == ws && AllJsSpace(ws)
    requires i + |ws| < |s| ==> !IsJsSpace(s[i + |ws|])
    ensures SpaceRun(s, i) == |ws|
    decreases |ws|
  {
    if ws != [] {
      assert s[i] == ws[0];
      assert s[i + 1..i + |ws|] == ws[1..];
      assert AllJsSpace(ws[1..]) by { assert forall k :: 0 <= k < |ws| - 1 ==> ws[1..][k] == ws[k + 1]; }
      SpaceRunOf(s, i + 1, ws[1..]);
    }
  }

  /** The tag, after any text and followed by anything, matches where it
      starts. */
  lemma TagAtAfter(pre: string, rest: string)
    ensures TagAt(pre + TAG + rest, |pre|)
  {
    var s := pre + TAG + rest;
    assert forall k :: 0 <= k < |TAG| ==> s[|pre| + k] == TAG[k];
  }

  /** Text that holds no tag holds none either once text starting with '@'
      follows it: a tag that began inside it and ran on would need an '@'
      where the tag has a letter. */
  lemma NoTagStraddles(pre: string, rest: string)
    requires forall i :: 0 <= i < |pre| ==> !TagAt(pre, i)
    requires rest != [] && rest[0] == '@'
    ensures forall m :: 0 <= m < |pre| ==> !TagAt(pre + rest, m)
  {
    var s := pre + rest;
    forall m | 0 <= m < |pre|
      ensures !TagAt(s, m)
    {
      if m + |TAG| <= |pre| {
        assert !TagAt(pre, m);
        assert forall k :: 0 <= k < |TAG| ==>
          (LowerAscii(s[m + k]) == TAG[k]) == (LowerAscii(pre[m + k]) == TAG[k]);
      } else {
        var k := |pre| - m;
        assert s[m + k] == '@' != TAG[k];
      }
    }
  }

  /** Scanning passes over positions where no tag starts. */
  lemma {:induction false} ScanSkips(s: string, i: nat, j: nat)
    requires i <= j <= |s|
    requires forall m :: i <= m < j ==> !TagAt(s, m)
    ensures Scan(s, i) == Scan(s, j)
    decreases j - i
  {
    if i < j {
      assert !TagAt(s, i);
      assert CaptureAt(s, i) == None;
      ScanSkips(s, i + 1, j);
    }
  }

  /** The match at i, after the tag and w characters of white space, is
      the capture group at a. */
  lemma CaptureAtTag(s: string, i: nat, w: nat, a: nat)
    requires TagAt(s, i) && w > 0 && SpaceRun(s, i + |TAG|) == w && a == i + |TAG| + w
    ensures CaptureAt(s, i) == CaptureDigits(s, a)
  {
  }

  /** The capture group at a: a digit run up to b, then dot groups ending
      at e. */
  lemma CaptureDigitsOf(s: string, a: nat, b: nat, e: nat, v: string)
    requires a < b <= |s| && DigitRun(s, a) == b - a
    requires DotGroups(s, b, 3) == e && a <= e <= |s| && s[a..e] == v
    ensures CaptureDigits(s, a) == Some(v)
  {
  }

  /** A source that holds no tag before a "@version" tag, white space and a
      version that no digit or dot goes on from gives back that version. */
  lemma ParseVersionInContext(pre: string, ws: string, parts: seq<string>, post: string)
    requires forall i :: 0 <= i < |pre| ==> !TagAt(pre, i)
    requires ws != [] && AllJsSpace(ws)
    requires VersionParts(parts)
    requires post == [] || (!IsDigit(post[0]) && post[0] != '.')
    ensures ParseVersionFromSource(pre + TAG + ws + Join(parts) + post) == Some(Join(parts))
  {
    var s := pre + TAG + ws + Join(parts) + post;
    assert forall m :: 0 <= m < |pre| ==> !TagAt(s, m) by {
      var rest := TAG + ws + Join(parts) + post;
      assert s == pre + rest;
      assert rest[0] == '@';
      NoTagStraddles(pre, rest);
    }
    ScanSkips(s, 0, |pre|);
    CaptureInContext(s, pre, ws, parts, post);
  }

  /** The match where the tag starts: the version, and no more. */
  lemma CaptureInContext(s: string, pre: string, ws: string, parts: seq<string>, post: string)
    requires ws != [] && AllJsSpace(ws)
    requires VersionParts(parts)
    requires post == [] || (!IsDigit(post[0]) && post[0] != '.')
    requires s == pre + TAG + ws + Join(parts) + post
    ensures |pre| < |s| && CaptureAt(s, |pre|) == Some(Join(parts))
  {
    PiecesOfContext(s, pre, TAG, ws, Join(parts), post);
    CaptureAtSlices(s, |pre|, ws, parts, post);
  }

  /** The match at i, with the tag, the white space ws and then the
      version found as slices of s. */
  lemma CaptureAtSlices(s: string, i: nat, ws: string, parts: seq<string>, post: string)
    requires ws != [] && AllJsSpace(ws)
    requires VersionParts(parts)
    requires post == [] || (!IsDigit(post[0]) && post[0] != '.')
    requires i + |TAG| + |ws| <= |s|
    requires s[i..i + |TAG|] == TAG && s[i + |TAG|..i + |TAG| + |ws|] == ws
    requires s[i + |TAG| + |ws|..] == Join(parts) + post
    ensures i < |s| && CaptureAt(s, i) == Some(Join(parts))
  {
    var j := i + |TAG|;
    var a := j + |ws|;
    var b := a + |parts[0]|;
    var e := b + |DotTail(parts[1..])|;
    TagAtSlice(s, i);
    VersionPieces(s, a, parts, post);
    assert IsDigit(s[a]) by {
      assert s[a] == s[a..a + |parts[0]|][0] == parts[0][0];
    }
    SpaceRunOf(s, j, ws);
    DigitsAt(s, a, parts, post);
    DotGroupsAt(s, b, parts[1..], post, 3);
    assert s[a..e] == Join(parts);
    CaptureDigitsOf(s, a, b, e, Join(parts));
    CaptureAtTag(s, i, |ws|, a);
  }

  /** Where pre, the tag, ws and the rest sit in s. */
  lemma PiecesOfContext(s: string, pre: string, tag: string, ws: string, v: string, post: string)
    requires s == pre + tag + ws + v + post
    ensures var a := |pre| + |tag| + |ws|;
      a + |v| + |post| == |s| &&
      s[|pre|..|pre| + |tag|] == tag && s[|pre| + |tag|..a] == ws && s[a..] == v + post
  {
  }

  /** The tag, found as a slice, matches there. */
  lemma TagAtSlice(s: string, i: nat)
    requires i + |TAG| <= |s| && s[i..i + |TAG|] == TAG
    ensures TagAt(s, i)
  {
    assert forall k :: 0 <= k < |TAG| ==> s[i..i + |TAG|][k] == TAG[k];
  }

  /** Where the first piece and the dot groups of a version sit in s. */
  lemma VersionPieces(s: string, a: nat, parts: seq<string>, post: string)
    requires VersionParts(parts)
    requires a <= |s| && s[a..] == Join(parts) + post
    ensures a + |Join(parts)| <= |s| && s[a..a + |Join(parts)|] == Join(parts)
    ensures parts[0] != [] && AllDigits(parts[0]) && DigitParts(parts[1..]) && |parts[1..]| <= 3
    ensures a + |parts[0]| <= |s| && s[a..a + |parts[0]|] == parts[0]
    ensures s[a + |parts[0]|..] == DotTail(parts[1..]) + post
  {
    DotTailShape(parts);
    var p := parts[0];
    var t := DotTail(parts[1..]);
    assert s[a..] == p + (t + post);
    assert s[a..][..|p|] == p;
    assert s[a..][|p|..] == t + post;
    assert s[a..][..|p| + |t|] == p + t;
  }

  /** The digit run at a is the first piece. */
  lemma DigitsAt(s: string, a: nat, parts: seq<string>, post: string)
    requires VersionParts(parts)
    requires post == [] || (!IsDigit(post[0]) && post[0] != '.')
    requires a + |parts[0]| <= |s| && s[a..a + |parts[0]|] == parts[0]
    requires s[a + |parts[0]|..] == DotTail(parts[1..]) + post
    ensures DigitRun(s, a) == |parts[0]| > 0
  {
    assert parts[0] != [] && AllDigits(parts[0]);
    TailThenPost(parts[1..], post);
    DigitRunBefore(s, a, parts[0], DotTail(parts[1..]) + post);
  }

  /** The bare header "@version " followed by a version gives back that
      version. */
  lemma ParseVersionRoundTrip(parts: seq<string>)
    requires VersionParts(parts)
    ensures ParseVersionFromSource(TAG + " " + Join(parts)) == Some(Join(parts))
  {
    assert ([] + TAG + " " + Join(parts) + []) == TAG + " " + Join(parts);
    ParseVersionInContext([], " ", parts, []);
  }

  // ---------------------------------------------------------------------
  // The update gate of `checkForUpdates`

  /** What fetching the update URL produced: no response at all (the fetch
      rejected), or a response with its status and its body text. */
  datatype Response = NetworkFailure | Reply(status: int, text: string)

  /** `res.ok`: a status in the 2xx range. */
  predicate Ok(r: Response) {
    r.Reply? && 200 <= r.status <= 299
  }

  /** The outcome of one update check. */
  datatype UpdateDecision =
    | CheckFailed          // the fetch failed or the status was not ok
    | VersionUnreadable    // the body has no `@version` tag to read
    | UpToDate             // the remote version is not newer
    | Install(version: string, source: string)  // write source over the plugin file

  /** `checkForUpdates`: fetch, read the remote version, compare it against
      the installed one, and install only a strictly newer version. */
  method CheckForUpdates(response: Response, current: string) returns (d: UpdateDecision)
    ensures d == CheckFailed <==> !Ok(response)
    ensures d == VersionUnreadable <==> Ok(response) && ParseVersionFromSource(response.text).None?
    ensures d == UpToDate <==>
      Ok(response) && ParseVersionFromSource(response.text).Some? &&
      VersionCompare(ParseVersionFromSource(response.text).value, current) <= 0
    ensures d.Install? <==>
      Ok(response) && ParseVersionFromSource(response.text).Some? &&
      VersionCompare(ParseVersionFromSource(response.text).value, current) == 1
    ensures d.Install? ==>
      d.source == response.text && ParseVersionFromSource(response.text) == Some(d.version)
  {
    if !Ok(response) {
      return CheckFailed;
    }
    var remote := ParseVersionFromSource(response.text);
    if remote.None? {
      return VersionUnreadable;
    }
    var cmp := CompareVersions(remote.value, current);
    if cmp <= 0 {
      return UpToDate;
    }
    return Install(remote.value, response.text);
  }

  /** The `@version` line of the plugin's own header, with its end of line. */
  const OWN_HEADER := " * @version 3.0.0\n"

  /** The installed version as the constructor records it. */
  const CURRENT_VERSION_AS_WRITTEN := "2.2.3"

  /** The installed version as the header declares it. */
  const CURRENT_VERSION := "3.0.0"

  lemma OwnHeaderVersion()
    ensures ParseVersionFromSource(OWN_HEADER) == Some(CURRENT_VERSION)
  {
    var parts := ["3", "0", "0"];
    assert Join(parts) == CURRENT_VERSION && VersionParts(parts);
    assert " * " + TAG + " " + Join(parts) + "\n" == OWN_HEADER;
    assert AllJsSpace(" ");
    ParseVersionInContext(" * ", " ", parts, "\n");
  }

  /** A version written as digit pieces splits back into those pieces. */
  lemma SplitOfParts(parts: seq<string>, v: string)
    requires VersionParts(parts) && v == Join(parts)
    ensures Split(v) == parts
  {
    assert forall i :: 0 <= i < |parts| ==> '.' !in parts[i] by {
      forall i, k | 0 <= i < |parts| && 0 <= k < |parts[i]|
        ensures parts[i][k] != '.'
      {
        assert IsDigit(parts[i][k]);
      }
    }
    SplitJoin(parts);
  }

  /** The decimal values of digit pieces. */
  function Values(parts: seq<string>): seq<int>
    requires DigitParts(parts)
  {
    if parts == [] then []
    else
      assert DigitParts(parts[1..]) by { assert forall m :: 0 <= m < |parts| - 1 ==> parts[1..][m] == parts[m + 1]; }
      [DecimalValue(parts[0])] + Values(parts[1..])
  }

  lemma {:induction false} ValuesAt(parts: seq<string>)
    requires DigitParts(parts)
    ensures |Values(parts)| == |parts|
    ensures forall i :: 0 <= i < |parts| ==> Values(parts)[i] == DecimalValue(parts[i])
  {
    if parts != [] {
      assert DigitParts(parts[1..]) by { assert forall m :: 0 <= m < |parts| - 1 ==> parts[1..][m] == parts[m + 1]; }
      ValuesAt(parts[1..]);
    }
  }

  /** The components of a version written as digit pieces are the pieces' decimal values. */
  lemma ComponentsOfJoin(parts: seq<string>)
    requires VersionParts(parts)
    ensures Components(Join(parts)) == Values(parts)
  {
    SplitOfParts(parts, Join(parts));
    ValuesAt(parts);
  }

  /** The header's version is newer than the one the constructor records. */
  lemma WrittenVersionIsOlder()
    ensures VersionCompare(CURRENT_VERSION, CURRENT_VERSION_AS_WRITTEN) == 1
  {
    var pa, pb := ["3", "0", "0"], ["2", "2", "3"];
    assert Join(pa) == CURRENT_VERSION && VersionParts(pa);
    assert Join(pb) == CURRENT_VERSION_AS_WRITTEN && VersionParts(pb);
    ComponentsOfJoin(pa);
    ComponentsOfJoin(pb);
  }

  /** As written, the plugin's own release counts as newer than the version
      it reports, so checking for updates reinstalls the current release. */
  lemma OwnReleaseLooksNewerAsWritten()
    ensures ParseVersionFromSource(OWN_HEADER) == Some(CURRENT_VERSION)
    ensures VersionCompare(CURRENT_VERSION, CURRENT_VERSION_AS_WRITTEN) == 1
  {
    OwnHeaderVersion();
    WrittenVersionIsOlder();
  }

  /** Fetching a source that declares exactly the installed version is
      never an install. */
  lemma SameVersionIsUpToDate(src: string, current: string)
    requires ParseVersionFromSource(src) == Some(current)
    ensures VersionCompare(ParseVersionFromSource(src).value, current) == 0
  {
    CmpReflexive(Components(current));
  }

  /** With the installed version taken from the header, the plugin's own
      release is up to date. */
  lemma OwnReleaseUpToDate()
    ensures ParseVersionFromSource(OWN_HEADER) == Some(CURRENT_VERSION)
    ensures VersionCompare(CURRENT_VERSION, CURRENT_VERSION) == 0
  {
    OwnHeaderVersion();
    SameVersionIsUpToDate(OWN_HEADER, CURRENT_VERSION);
  }

  /** Components compare as numbers, not as text: 1.10 is newer than 1.9. */
  lemma NumericNotLexicographic()
    ensures VersionCompare("1.10", "1.9") == 1
  {
    var pa, pb := ["1", "10"], ["1", "9"];
    assert Join(pa) == "1.10" && VersionParts(pa);
    assert Join(pb) == "1.9" && VersionParts(pb);
    ComponentsOfJoin(pa);
    ComponentsOfJoin(pb);
  }

  /** A last component that starts with anything but a digit, white space or
      a sign reads as 0, so a version with such a suffix ("1.2.beta") equals
      the version without it ("1.2"). */
  lemma NonNumericComponentIsZero(a: string, c: string)
    requires '.' !in c && c != []
    requires !IsDigit(c[0]) && !IsJsSpace(c[0]) && c[0] != '+' && c[0] != '-'
    ensures VersionCompare(a + "." + c, a) == 0
  {
    assert ParseIntOrZero(c) == 0 by {
      assert TrimStart(c) == c;
      assert Unsigned(c) == c;
    }
    MissingComponentIsZero(a, c);
  }
}
