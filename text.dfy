/** The Python `str` operations the scripts rely on, over `seq<char>`:
    `strip`, `split` on one character, `join`, substring search (`in`,
    `find`, `split(sep)[0]`), ASCII case mapping, `int()` on digit strings,
    and the code-point ordering that `sorted()` uses. */
module Text {
  import opened Wrappers

  /** `str.isspace()` for one character: Python's whitespace set. */
  predicate IsSpace(c: char) {
    c == ' ' || ('\t' <= c <= '\r') || ('\U{1C}' <= c <= '\U{1F}')
    || c == '\U{85}' || c == '\U{A0}' || c == '\U{1680}'
    || ('\U{2000}' <= c <= '\U{200A}') || c == '\U{2028}' || c == '\U{2029}'
    || c == '\U{202F}' || c == '\U{205F}' || c == '\U{3000}'
  }

  predicate StartsWith(s: string, prefix: string) {
    |prefix| <= |s| && s[..|prefix|] == prefix
  }

  predicate EndsWith(s: string, suffix: string) {
    |suffix| <= |s| && s[|s| - |suffix|..] == suffix
  }

  lemma EndsWithConcat(a: string, b: string)
    ensures EndsWith(a + b, b)
  {
    assert (a + b)[|a|..] == b;
  }

  lemma EndsWithPrepend(a: string, b: string, suffix: string)
    requires EndsWith(b, suffix)
    ensures EndsWith(a + b, suffix)
  {
    assert (a + b)[|a + b| - |suffix|..] == b[|b| - |suffix|..];
  }

  lemma StartsWithConcat(a: string, b: string)
    ensures StartsWith(a + b, a)
  {
    assert (a + b)[..|a|] == a;
  }

  /** `str.lstrip()`: drops the leading whitespace and nothing else. */
  function TrimStart(s: string): (r: string)
    ensures |r| <= |s| && r == s[|s| - |r|..]
    ensures forall i :: 0 <= i < |s| - |r| ==> IsSpace(s[i])
    ensures r == [] || !IsSpace(r[0])
    decreases |s|
  {
    if |s| > 0 && IsSpace(s[0]) then TrimStart(s[1..]) else s
  }

  /** `str.rstrip()`: drops the trailing whitespace and nothing else. */
  function TrimEnd(s: string): (r: string)
    ensures |r| <= |s| && r == s[..|r|]
    ensures forall i :: |r| <= i < |s| ==> IsSpace(s[i])
    ensures r == [] || !IsSpace(r[|r| - 1])
    decreases |s|
  {
    if |s| > 0 && IsSpace(s[|s| - 1]) then TrimEnd(s[..|s| - 1]) else s
  }

  /** `str.strip()`. */
  function Strip(s: string): string {
    TrimEnd(TrimStart(s))
  }

  /** A string with no whitespace at either end is its own `strip()`. */
  lemma StripFixed(s: string)
    requires s == [] || (!IsSpace(s[0]) && !IsSpace(s[|s| - 1]))
    ensures Strip(s) == s
  {
  }

  /** A non-empty string that is its own `strip()` has no whitespace at either end. */
  lemma StrippedEnds(s: string)
    requires s != [] && Strip(s) == s
    ensures !IsSpace(s[0]) && !IsSpace(s[|s| - 1])
  {
    var t := TrimStart(s);
    assert |s| <= |t|;
    assert t == s;
  }

  /** Stripping a stripped string followed by one whitespace character gives it back. */
  lemma StripAppendSpace(s: string, c: char)
    requires IsSpace(c)
    requires s == [] || (!IsSpace(s[0]) && !IsSpace(s[|s| - 1]))
    ensures Strip(s + [c]) == s
  {
    var u := s + [c];
    if s != [] {
      var t := TrimStart(u);
      assert t == u;
      assert u[..|u| - 1] == s;
      StripFixed(s);
    }
  }

  /** A line ending in a non-space mark and a newline strips to text that
      ends in that mark. */
  lemma StripMarkLine(w: string, c: char)
    requires !IsSpace(c)
    ensures EndsWith(Strip(w + [c] + "\n"), [c])
  {
    var s := w + [c] + "\n";
    assert s[|w|] == c && s[|w| + 1] == '\n';
    var t := TrimStart(s);
    assert |s| - |t| <= |w|;
    assert t[|t| - 2] == c && t[|t| - 1] == '\n';
    var r := TrimEnd(t);
    assert IsSpace(t[|t| - 1]);
    assert |r| == |t| - 1;
    assert r[|r| - 1] == c;
  }

  /** `strip()` leaves nothing exactly when the string is all whitespace. */
  lemma StripEmptyIff(s: string)
    ensures Strip(s) == [] <==> forall i :: 0 <= i < |s| ==> IsSpace(s[i])
  {
    var t := TrimStart(s);
    if Strip(s) == [] {
      assert t == [];
    }
  }

  /** `str.strip(c)` for one character `c`: drops every leading and trailing `c`. */
  function StripChar(s: string, c: char): (r: string)
    ensures |r| <= |s|
    ensures r == [] || (r[0] != c && r[|r| - 1] != c)
    decreases |s|
  {
    if |s| > 0 && s[0] == c then StripChar(s[1..], c)
    else if |s| > 0 && s[|s| - 1] == c then StripChar(s[..|s| - 1], c)
    else s
  }

  predicate OccursAt(s: string, sub: string, i: nat) {
    i + |sub| <= |s| && s[i..i + |sub|] == sub
  }

  /** The first occurrence of `sub` in `s` at or after index `i`, as `str.find` does. */
  function FindFrom(s: string, sub: string, i: nat): (r: Option<nat>)
    requires i <= |s|
    ensures r.Some? ==> i <= r.value && OccursAt(s, sub, r.value)
    ensures forall j :: i <= j && (r.None? || j < r.value) ==> !OccursAt(s, sub, j)
    decreases |s| - i
  {
    if OccursAt(s, sub, i) then Some(i)
    else if i + |sub| >= |s| then None
    else FindFrom(s, sub, i + 1)
  }

  function Find(s: string, sub: string): (r: Option<nat>) {
    FindFrom(s, sub, 0)
  }

  /** Python's `sub in s`. */
  predicate Contains(s: string, sub: string) {
    Find(s, sub).Some?
  }

  lemma ContainsIff(s: string, sub: string, i: nat)
    requires OccursAt(s, sub, i)
    ensures Contains(s, sub)
  {
  }

  /** A string containing `sub` contains each of its characters. */
  lemma ContainsChar(s: string, sub: string, c: char)
    requires Contains(s, sub) && c in sub
    ensures c in s
  {
    var i := Find(s, sub).value;
    assert s[i..i + |sub|] == sub;
    var k :| 0 <= k < |sub| && sub[k] == c;
    assert s[i + k] == sub[k];
  }

  /** The text after the first occurrence of `sep`: `s.split(sep)[1]` when `sep in s`. */
  function AfterFirst(s: string, sep: string): (r: string)
    requires Contains(s, sep)
  {
    s[Find(s, sep).value + |sep|..]
  }

  /** The text before the first occurrence of `sep`: `s.split(sep)[0]`. */
  function BeforeFirst(s: string, sep: string): (r: string)
  {
    match Find(s, sep)
    case None => s
    case Some(i) => s[..i]
  }

  /** The index of the first `c` in `s`. */
  function IndexOfChar(s: string, c: char): (r: Option<nat>)
    ensures r.Some? ==> r.value < |s| && s[r.value] == c && c !in s[..r.value]
    ensures r.None? ==> c !in s
    decreases |s|
  {
    if |s| == 0 then None
    else if s[0] == c then Some(0)
    else match IndexOfChar(s[1..], c)
      case None => None
      case Some(k) =>
        assert s[..k + 1] == [s[0]] + s[1..][..k];
        Some(k + 1)
  }

  lemma IndexOfCharAfter(a: string, c: char, b: string)
    requires c !in a
    ensures IndexOfChar(a + [c] + b, c) == Some(|a|)
  {
    var s := a + [c] + b;
    assert s[|a|] == c;
  }

  /** `s.split(c)[0]`: the text up to the first `c`, or all of `s`. */
  function TakeUntil(s: string, c: char): (r: string)
    ensures c !in r && |r| <= |s| && r == s[..|r|]
    ensures |r| == |s| || s[|r|] == c
  {
    match IndexOfChar(s, c)
    case None => s
    case Some(i) => s[..i]
  }

  /** `s.split(c)` for a one-character separator. */
  function Split(s: string, c: char): (r: seq<string>)
    ensures |r| >= 1
    ensures forall k :: 0 <= k < |r| ==> c !in r[k]
    decreases |s|
  {
    match IndexOfChar(s, c)
    case None => [s]
    case Some(i) => [s[..i]] + Split(s[i + 1..], c)
  }

  /** `c.join(xs)`. */
  function Join(xs: seq<string>, c: char): string
    decreases |xs|
  {
    if |xs| == 0 then ""
    else if |xs| == 1 then xs[0]
    else xs[0] + [c] + Join(xs[1..], c)
  }

  /** Splitting a joined list gives the pieces back. */
  lemma {:induction false} SplitJoin(xs: seq<string>, c: char)
    requires |xs| >= 1
    requires forall k :: 0 <= k < |xs| ==> c !in xs[k]
    ensures Split(Join(xs, c), c) == xs
    decreases |xs|
  {
    if |xs| > 1 {
      var rest := Join(xs[1..], c);
      IndexOfCharAfter(xs[0], c, rest);
      var s := xs[0] + [c] + rest;
      assert s[..|xs[0]|] == xs[0];
      assert s[|xs[0]| + 1..] == rest;
      SplitJoin(xs[1..], c);
      assert xs == [xs[0]] + xs[1..];
    }
  }

  /** Joining the pieces of a split gives the string back. */
  lemma {:induction false} JoinSplit(s: string, c: char)
    ensures Join(Split(s, c), c) == s
    decreases |s|
  {
    match IndexOfChar(s, c)
    case None =>
    case Some(i) =>
      var rest := s[i + 1..];
      JoinSplit(rest, c);
      var tail := Split(rest, c);
      assert Split(s, c) == [s[..i]] + tail;
      JoinCons(s[..i], tail, c);
      SplitAround(s, i);
  }

  lemma JoinCons(x: string, xs: seq<string>, c: char)
    requires |xs| >= 1
    ensures Join([x] + xs, c) == x + [c] + Join(xs, c)
  {
    assert ([x] + xs)[1..] == xs;
  }

  lemma SplitAround<T>(s: seq<T>, i: nat)
    requires i < |s|
    ensures s == s[..i] + [s[i]] + s[i + 1..]
  {
  }

  predicate IsDigit(c: char) {
    '0' <= c <= '9'
  }

  predicate AllDigits(s: string) {
    forall i :: 0 <= i < |s| ==> IsDigit(s[i])
  }

  /** `int(s)` for a string of ASCII digits. */
  function DecimalValue(s: string): nat
    requires AllDigits(s)
    decreases |s|
  {
    if |s| == 0 then 0
    else 10 * DecimalValue(s[..|s| - 1]) + (s[|s| - 1] as int - '0' as int)
  }

  function UpperChar(c: char): char {
    if 'a' <= c <= 'z' then (c as int - 32) as char else c
  }

  function LowerChar(c: char): char {
    if 'A' <= c <= 'Z' then (c as int + 32) as char else c
  }

  /** `str.upper()` on ASCII letters. */
  function Upper(s: string): string {
    seq(|s|, i requires 0 <= i < |s| => UpperChar(s[i]))
  }

  /** `str.lower()` on ASCII letters. */
  function Lower(s: string): string {
    seq(|s|, i requires 0 <= i < |s| => LowerChar(s[i]))
  }

  // ---------------------------------------------------------------------
  // Code-point ordering of strings, as Python's `<` and `sorted()` use it.

  predicate LexLess(a: string, b: string)
    decreases |a|
  {
    |b| > 0 && (|a| == 0 || a[0] < b[0] || (a[0] == b[0] && LexLess(a[1..], b[1..])))
  }

  lemma {:induction false} LexIrreflexive(a: string)
    ensures !LexLess(a, a)
    decreases |a|
  {
    if |a| > 0 {
      LexIrreflexive(a[1..]);
    }
  }

  lemma {:induction false} LexTransitive(a: string, b: string, c: string)
    requires LexLess(a, b) && LexLess(b, c)
    ensures LexLess(a, c)
    decreases |a|
  {
    if |a| > 0 && a[0] == b[0] && b[0] == c[0] {
      LexTransitive(a[1..], b[1..], c[1..]);
    }
  }

  lemma {:induction false} LexTotal(a: string, b: string)
    requires a != b
    ensures LexLess(a, b) || LexLess(b, a)
    decreases |a|
  {
    if |a| > 0 && |b| > 0 && a[0] == b[0] {
      assert a == [a[0]] + a[1..] && b == [b[0]] + b[1..];
      LexTotal(a[1..], b[1..]);
    }
  }

  lemma LexAsymmetric(a: string, b: string)
    requires LexLess(a, b)
    ensures !LexLess(b, a)
  {
    if LexLess(b, a) {
      LexTransitive(a, b, a);
      LexIrreflexive(a);
    }
  }

  function Elems(xs: seq<string>): set<string> {
    set x | x in xs
  }

  /** Strictly increasing: sorted and free of duplicates. */
  predicate StrictlySorted(xs: seq<string>) {
    forall i, j :: 0 <= i < j < |xs| ==> LexLess(xs[i], xs[j])
  }

  lemma SortedCons(h: string, t: seq<string>)
    requires StrictlySorted(t)
    requires forall y :: y in t ==> LexLess(h, y)
    ensures StrictlySorted([h] + t)
  {
    var r := [h] + t;
    forall i, j | 0 <= i < j < |r| ensures LexLess(r[i], r[j]) {
      if i > 0 {
        assert r[i] == t[i - 1] && r[j] == t[j - 1];
      } else {
        assert r[j] == t[j - 1];
      }
    }
  }

  /** Inserts `x` into a strictly sorted list unless it is already there. */
  function Insert(xs: seq<string>, x: string): (r: seq<string>)
    requires StrictlySorted(xs)
    ensures StrictlySorted(r) && Elems(r) == Elems(xs) + {x}
    decreases |xs|
  {
    if |xs| == 0 then [x]
    else if x == xs[0] then xs
    else if LexLess(x, xs[0]) then
      InsertFront(xs, x);
      [x] + xs
    else
      LexTotal(x, xs[0]);
      var t := Insert(xs[1..], x);
      InsertBehind(xs, x, t);
      [xs[0]] + t
  }

  /** An element below the head goes in front. */
  lemma InsertFront(xs: seq<string>, x: string)
    requires StrictlySorted(xs) && |xs| > 0 && LexLess(x, xs[0])
    ensures StrictlySorted([x] + xs) && Elems([x] + xs) == Elems(xs) + {x}
  {
    forall y | y in xs ensures LexLess(x, y) {
      var k :| 0 <= k < |xs| && xs[k] == y;
      if k > 0 { LexTransitive(x, xs[0], y); }
    }
    SortedCons(x, xs);
  }

  /** An element above the head goes behind it, into the tail. */
  lemma InsertBehind(xs: seq<string>, x: string, t: seq<string>)
    requires StrictlySorted(xs) && |xs| > 0 && LexLess(xs[0], x)
    requires StrictlySorted(t) && Elems(t) == Elems(xs[1..]) + {x}
    ensures StrictlySorted([xs[0]] + t) && Elems([xs[0]] + t) == Elems(xs) + {x}
  {
    forall y | y in t ensures LexLess(xs[0], y) {
      if y != x {
        assert y in Elems(xs[1..]);
        var k :| 0 <= k < |xs[1..]| && xs[1..][k] == y;
        assert xs[k + 1] == y;
      }
    }
    SortedCons(xs[0], t);
    assert xs == [xs[0]] + xs[1..];
    assert Elems([xs[0]] + t) == {xs[0]} + Elems(t);
    assert Elems(xs) == {xs[0]} + Elems(xs[1..]);
  }

  /** Python's `sorted()` applied to a set of strings. */
  method SortSet(s: set<string>) returns (r: seq<string>)
    ensures StrictlySorted(r) && Elems(r) == s
  {
    r := [];
    var rest := s;
    while rest != {}
      invariant StrictlySorted(r)
      invariant Elems(r) + rest == s
      decreases rest
    {
      var x :| x in rest;
      r := Insert(r, x);
      rest := rest - {x};
    }
  }

  /** A strictly sorted list is determined by its elements: this is why
      sorting a set is deterministic. */
  lemma {:induction false} SortedUnique(a: seq<string>, b: seq<string>)
    requires StrictlySorted(a) && StrictlySorted(b) && Elems(a) == Elems(b)
    ensures a == b
    decreases |a|
  {
    if |b| > 0 {
      assert b[0] in Elems(b);
    }
    if |a| > 0 {
      assert a[0] in Elems(b);
      var ka :| 0 <= ka < |b| && b[ka] == a[0];
      assert b[0] in Elems(a);
      var kb :| 0 <= kb < |a| && a[kb] == b[0];
      if ka > 0 && kb > 0 {
        LexAsymmetric(a[0], b[0]);
      }
      assert a[0] == b[0];
      forall x | x in a[1..] ensures x != a[0] {
        var k :| 0 <= k < |a[1..]| && a[1..][k] == x;
        assert a[k + 1] == x;
        LexIrreflexive(a[0]);
      }
      forall x | x in b[1..] ensures x != b[0] {
        var k :| 0 <= k < |b[1..]| && b[1..][k] == x;
        assert b[k + 1] == x;
        LexIrreflexive(b[0]);
      }
      assert a == [a[0]] + a[1..] && b == [b[0]] + b[1..];
      assert Elems(a[1..]) == Elems(a) - {a[0]};
      assert Elems(b[1..]) == Elems(b) - {b[0]};
      SortedUnique(a[1..], b[1..]);
    }
  }

  /** Strictly sorted lists hold no element twice. */
  lemma SortedDistinct(xs: seq<string>, i: nat, j: nat)
    requires StrictlySorted(xs) && i < j < |xs|
    ensures xs[i] != xs[j]
  {
    LexIrreflexive(xs[i]);
  }

  /** The one strictly sorted list holding exactly the strings of `s`. */
  ghost function SortedOf(s: set<string>): (r: seq<string>)
    ensures StrictlySorted(r) && Elems(r) == s
    decreases s
  {
    if s == {} then []
    else
      var x :| x in s;
      Insert(SortedOf(s - {x}), x)
  }

  /** `sorted(s)` is `SortedOf(s)`, whichever way the sorted list was computed. */
  lemma IsSortedOf(r: seq<string>, s: set<string>)
    requires StrictlySorted(r) && Elems(r) == s
    ensures r == SortedOf(s)
  {
    SortedUnique(r, SortedOf(s));
  }

  /** Splitting a string without the separator gives the string itself. */
  lemma SplitNone(s: string, c: char)
    requires c !in s
    ensures Split(s, c) == [s]
  {
  }

  /** Splitting at a separator that is not in the first piece peels that piece off. */
  lemma SplitAfter(a: string, c: char, b: string)
    requires c !in a
    ensures Split(a + [c] + b, c) == [a] + Split(b, c)
  {
    IndexOfCharAfter(a, c, b);
    var s := a + [c] + b;
    assert s[..|a|] == a;
    assert s[|a| + 1..] == b;
  }

  /** `strip()` is idempotent. */
  lemma StripIdempotent(s: string)
    ensures Strip(Strip(s)) == Strip(s)
  {
    var t := TrimStart(s);
    var r := TrimEnd(t);
    if r != [] {
      assert r[0] == t[0];
    }
    StripFixed(r);
  }

  /** `strip()` only removes characters. */
  lemma StripWithin(s: string, c: char)
    requires c in Strip(s)
    ensures c in s
  {
    var t := TrimStart(s);
    var r := Strip(s);
    var j :| 0 <= j < |r| && r[j] == c;
    assert r[j] == t[j];
    assert t[j] == s[|s| - |t| + j];
  }

  lemma StripFree(s: string, c: char)
    requires c !in s
    ensures c !in Strip(s)
  {
    if c in Strip(s) {
      StripWithin(s, c);
    }
  }

  /** Upper-casing changes only lower-case letters, and into upper-case ones. */
  lemma UpperWithin(s: string, c: char)
    requires c in Upper(s) && !('A' <= c <= 'Z')
    ensures c in s
  {
    var j :| 0 <= j < |s| && Upper(s)[j] == c;
    assert s[j] == c;
  }

  /** Upper-casing twice is upper-casing once. */
  lemma UpperIdempotent(s: string)
    ensures Upper(Upper(s)) == Upper(s)
  {
    assert forall j :: 0 <= j < |s| ==> UpperChar(UpperChar(s[j])) == UpperChar(s[j]);
  }

  // ---------------------------------------------------------------------
  // Sequence steps shared by the loops of the model.

  lemma TakeSnoc<T>(s: seq<T>, i: nat)
    requires i < |s|
    ensures s[..i + 1] == s[..i] + [s[i]]
  {
  }

  lemma TakeAll<T>(s: seq<T>)
    ensures s[..|s|] == s
  {
  }

  lemma AppendAssoc<T>(a: seq<T>, b: seq<T>, c: seq<T>)
    ensures a + (b + c) == (a + b) + c
  {
  }

  // ---------------------------------------------------------------------
  // Greedy character-class runs.

  /** Length of the longest prefix of `s` whose characters all satisfy `p`:
      a greedy regular-expression run such as `\d+` or `[A-Z0-9_]*`. */
  function Run(s: string, p: char -> bool): (n: nat)
    ensures n <= |s|
    ensures forall i :: 0 <= i < n ==> p(s[i])
    ensures n == |s| || !p(s[n])
    decreases |s|
  {
    if |s| > 0 && p(s[0]) then 1 + Run(s[1..], p) else 0
  }

  /** A greedy run stops at the first character outside the class. */
  lemma RunStops(a: string, c: char, b: string, p: char -> bool)
    requires forall i :: 0 <= i < |a| ==> p(a[i])
    requires !p(c)
    ensures Run(a + [c] + b, p) == |a|
  {
    var s := a + [c] + b;
    assert s[|a|] == c;
    assert forall i :: 0 <= i < |a| ==> s[i] == a[i];
  }
}
