/**
 * The few Python `str` operations the measurement layer relies on:
 * `lower`, `strip`, `replace` and `split` with no argument.
 */
module PyText {

  /** Python's `str.isspace` for one character: the ASCII controls TAB..CR and
      FS..US, SPACE, NEL, NO-BREAK SPACE and the Unicode space separators. */
  predicate IsSpace(c: char) {
    var n := c as int;
    (9 <= n <= 13) || (28 <= n <= 32) || n == 0x85 || n == 0xA0 || n == 0x1680
    || (0x2000 <= n <= 0x200A) || n == 0x2028 || n == 0x2029 || n == 0x202F
    || n == 0x205F || n == 0x3000
  }

  predicate IsUpper(c: char) { 'A' <= c <= 'Z' }

  /** Lower-casing of one character (ASCII letters only). */
  function LowerChar(c: char): (d: char)
    ensures !IsUpper(d)
    ensures IsUpper(c) ==> 'a' <= d <= 'z'
    ensures !IsUpper(c) ==> d == c
  {
    if IsUpper(c) then (c as int + 32) as char else c
  }

  predicate NoUpper(s: string) {
    forall i :: 0 <= i < |s| ==> !IsUpper(s[i])
  }

  /** `s.lower()`. */
  function Lower(s: string): string {
    seq(|s|, i requires 0 <= i < |s| => LowerChar(s[i]))
  }

  /** Text without capitals joined to text without capitals has none. */
  lemma NoUpperJoin(x: string, y: string)
    requires NoUpper(x) && NoUpper(y)
    ensures NoUpper(x + y)
  {
    forall i | 0 <= i < |x + y|
      ensures !IsUpper((x + y)[i])
    {
      if i < |x| {
        assert (x + y)[i] == x[i];
      } else {
        assert (x + y)[i] == y[i - |x|];
      }
    }
  }

  /** Lower-casing leaves nothing to lower-case, and changes nothing already lower case. */
  lemma LowerIdempotent(s: string)
    ensures NoUpper(Lower(s))
    ensures NoUpper(s) ==> Lower(s) == s
    ensures Lower(Lower(s)) == Lower(s)
  {
    var r := Lower(s);
    assert NoUpper(s) ==> r == s by {
      if NoUpper(s) {
        assert forall i :: 0 <= i < |s| ==> r[i] == s[i];
      }
    }
    assert Lower(r) == r by {
      assert forall i :: 0 <= i < |r| ==> Lower(r)[i] == r[i];
    }
  }

  /** Number of whitespace characters at the start of `s`. */
  function LeadingSpaces(s: string): (k: nat)
    ensures k <= |s|
    ensures forall i :: 0 <= i < k ==> IsSpace(s[i])
    ensures k == |s| || !IsSpace(s[k])
  {
    if s != [] && IsSpace(s[0]) then 1 + LeadingSpaces(s[1..]) else 0
  }

  /** Number of whitespace characters at the end of `s`. */
  function TrailingSpaces(s: string): (k: nat)
    ensures k <= |s|
    ensures forall i :: |s| - k <= i < |s| ==> IsSpace(s[i])
    ensures k == |s| || !IsSpace(s[|s| - 1 - k])
  {
    if s != [] && IsSpace(s[|s| - 1]) then 1 + TrailingSpaces(s[..|s| - 1]) else 0
  }

  /** `s.strip()`: what lies between the leading and the trailing whitespace. */
  function Strip(s: string): string {
    var k := LeadingSpaces(s);
    if k == |s| then []
    else s[k..|s| - TrailingSpaces(s)]
  }

  /** `strip` keeps a slice of `s` that neither starts nor ends with
      whitespace, and everything it cuts off on either side is whitespace. */
  lemma StripSpec(s: string)
    ensures LeadingSpaces(s) + |Strip(s)| <= |s|
    ensures Strip(s) == s[LeadingSpaces(s)..LeadingSpaces(s) + |Strip(s)|]
    ensures forall i :: LeadingSpaces(s) + |Strip(s)| <= i < |s| ==> IsSpace(s[i])
    ensures Strip(s) == [] || (!IsSpace(Strip(s)[0]) && !IsSpace(Strip(s)[|Strip(s)| - 1]))
  {
    StripSlice(s);
    StripEnds(s);
  }

  lemma StripSlice(s: string)
    ensures LeadingSpaces(s) + |Strip(s)| <= |s|
    ensures Strip(s) == s[LeadingSpaces(s)..LeadingSpaces(s) + |Strip(s)|]
    ensures LeadingSpaces(s) < |s| ==> LeadingSpaces(s) + |Strip(s)| == |s| - TrailingSpaces(s)
  {
    var k := LeadingSpaces(s);
    if k < |s| {
      assert !IsSpace(s[k]);
      assert k < |s| - TrailingSpaces(s);
    }
  }

  lemma StripEnds(s: string)
    ensures Strip(s) == [] || (!IsSpace(Strip(s)[0]) && !IsSpace(Strip(s)[|Strip(s)| - 1]))
  {
    var k := LeadingSpaces(s);
    if k < |s| {
      StripSlice(s);
      var e := |s| - TrailingSpaces(s);
      assert Strip(s)[0] == s[k] && Strip(s)[|Strip(s)| - 1] == s[e - 1];
    }
  }

  /** A string with no whitespace at either end is its own strip. */
  lemma StripUnchanged(s: string)
    requires s == [] || (!IsSpace(s[0]) && !IsSpace(s[|s| - 1]))
    ensures Strip(s) == s
  {
    if s != [] {
      assert LeadingSpaces(s) == 0 && TrailingSpaces(s) == 0;
      assert s[0..|s|] == s;
    }
  }

  /** The leading whitespace ends at the first character that is not whitespace. */
  lemma {:induction false} LeadingSpacesAt(s: string, k: nat)
    requires k <= |s|
    requires forall i :: 0 <= i < k ==> IsSpace(s[i])
    requires k == |s| || !IsSpace(s[k])
    ensures LeadingSpaces(s) == k
    decreases k
  {
    if k > 0 {
      LeadingSpacesAt(s[1..], k - 1);
    }
  }

  /** The trailing whitespace starts after the last character that is not whitespace. */
  lemma {:induction false} TrailingSpacesAt(s: string, k: nat)
    requires k <= |s|
    requires forall i :: |s| - k <= i < |s| ==> IsSpace(s[i])
    requires k == |s| || !IsSpace(s[|s| - 1 - k])
    ensures TrailingSpaces(s) == k
    decreases k
  {
    if k > 0 {
      TrailingSpacesAt(s[..|s| - 1], k - 1);
    }
  }

  /** Strings that have whitespace at the same places have the same amount
      of leading and of trailing whitespace. */
  lemma SameSpaces(s: string, t: string)
    requires |s| == |t|
    requires forall i :: 0 <= i < |s| ==> (IsSpace(s[i]) <==> IsSpace(t[i]))
    ensures LeadingSpaces(s) == LeadingSpaces(t)
    ensures TrailingSpaces(s) == TrailingSpaces(t)
  {
    SameLeading(s, t);
    SameTrailing(s, t);
  }

  lemma SameLeading(s: string, t: string)
    requires |s| == |t|
    requires forall i :: 0 <= i < |s| ==> (IsSpace(s[i]) <==> IsSpace(t[i]))
    ensures LeadingSpaces(s) == LeadingSpaces(t)
  {
    var k := LeadingSpaces(s);
    assert forall i :: 0 <= i < k ==> IsSpace(t[i]);
    assert k == |t| || !IsSpace(t[k]);
    LeadingSpacesAt(t, k);
  }

  lemma SameTrailing(s: string, t: string)
    requires |s| == |t|
    requires forall i :: 0 <= i < |s| ==> (IsSpace(s[i]) <==> IsSpace(t[i]))
    ensures TrailingSpaces(s) == TrailingSpaces(t)
  {
    var k := TrailingSpaces(s);
    assert forall i :: |t| - k <= i < |t| ==> IsSpace(t[i]);
    assert k == |t| || !IsSpace(t[|t| - 1 - k]);
    TrailingSpacesAt(t, k);
  }

  /** Lower-casing changes no whitespace and makes none. */
  lemma LowerKeepsSpaces(s: string)
    ensures forall i :: 0 <= i < |s| ==> (IsSpace(s[i]) <==> IsSpace(Lower(s)[i]))
  {
  }

  /** Lower-casing a slice is slicing the lower-cased string. */
  lemma LowerSlice(s: string, a: nat, b: nat)
    requires a <= b <= |s|
    ensures Lower(s)[a..b] == Lower(s[a..b])
  {
    var x, y := Lower(s)[a..b], Lower(s[a..b]);
    forall i | 0 <= i < b - a
      ensures x[i] == y[i]
    {
      assert x[i] == Lower(s)[a + i] == LowerChar(s[a + i]);
      assert s[a..b][i] == s[a + i];
    }
  }

  /** `strip` and `lower` commute, and `strip` is idempotent. */
  lemma StripLower(s: string)
    ensures Strip(Lower(s)) == Lower(Strip(s))
    ensures Strip(Strip(s)) == Strip(s)
  {
    StripUnchanged(Strip(s));
    StripLowerCommute(s);
  }

  lemma StripLowerCommute(s: string)
    ensures Strip(Lower(s)) == Lower(Strip(s))
  {
    var l := Lower(s);
    LowerKeepsSpaces(s);
    SameSpaces(s, l);
    if LeadingSpaces(s) < |s| {
      LowerSlice(s, LeadingSpaces(s), |s| - TrailingSpaces(s));
    }
  }

  /** `p` occurs in `s` at index `i`. */
  predicate Occurs(s: string, p: string, i: int) {
    0 <= i && i + |p| <= |s| && s[i..i + |p|] == p
  }

  /** `s.replace(p, rep)`: occurrences of `p` replaced left to right, without overlap. */
  function ReplaceAll(s: string, p: string, rep: string): (r: string)
    requires p != []
    decreases |s|
  {
    if |s| < |p| then s
    else if s[..|p|] == p then rep + ReplaceAll(s[|p|..], p, rep)
    else [s[0]] + ReplaceAll(s[1..], p, rep)
  }

  /** A prefix in which no occurrence of `p` starts is copied unchanged. */
  lemma {:induction false} ReplaceAllSkips(a: string, t: string, p: string, rep: string)
    requires p != []
    requires forall i :: 0 <= i < |a| ==> !Occurs(a + t, p, i)
    ensures ReplaceAll(a + t, p, rep) == a + ReplaceAll(t, p, rep)
    decreases |a|
  {
    if a == [] {
      assert a + t == t;
    } else {
      var s := a + t;
      if |s| < |p| {
        assert ReplaceAll(s, p, rep) == s;
        assert ReplaceAll(t, p, rep) == t;
      } else {
        assert !Occurs(s, p, 0);
        assert s[1..] == a[1..] + t;
        assert s[..|p|] != p;
        SkipsShift(a, t, p);
        ReplaceAllSkips(a[1..], t, p, rep);
        assert ReplaceAll(s, p, rep) == [s[0]] + ReplaceAll(s[1..], p, rep);
        assert [a[0]] + a[1..] == a;
      }
    }
  }

  /** No occurrence starting in `a` means none starting in `a[1..]` either. */
  lemma SkipsShift(a: string, t: string, p: string)
    requires a != []
    requires forall i :: 0 <= i < |a| ==> !Occurs(a + t, p, i)
    ensures forall i :: 0 <= i < |a| - 1 ==> !Occurs(a[1..] + t, p, i)
  {
    var s := a + t;
    assert s[1..] == a[1..] + t;
    forall i | 0 <= i < |a| - 1
      ensures !Occurs(a[1..] + t, p, i)
    {
      assert !Occurs(s, p, i + 1);
      if i + |p| <= |a[1..] + t| {
        assert (a[1..] + t)[i..i + |p|] == s[i + 1..i + 1 + |p|];
      }
    }
  }

  /** A string in which `p` does not occur is left as it is. */
  lemma ReplaceAllAbsent(s: string, p: string, rep: string)
    requires p != []
    requires forall i :: 0 <= i < |s| ==> !Occurs(s, p, i)
    ensures ReplaceAll(s, p, rep) == s
  {
    assert s + [] == s;
    ReplaceAllSkips(s, [], p, rep);
    assert ReplaceAll([], p, rep) == [];
  }

  /** Left to right: the first occurrence of `p` is replaced, everything
      before it is copied, and replacing goes on after it. */
  lemma ReplaceAllFirst(a: string, t: string, p: string, rep: string)
    requires p != []
    requires forall i :: 0 <= i < |a| ==> !Occurs(a + p + t, p, i)
    ensures ReplaceAll(a + p + t, p, rep) == a + rep + ReplaceAll(t, p, rep)
  {
    assert a + p + t == a + (p + t);
    ReplaceAllSkips(a, p + t, p, rep);
    StepReplace(t, p, rep);
  }

  /** What an occurrence says about its first two characters. */
  lemma OccursFirst(s: string, p: string, i: int)
    requires p != []
    ensures Occurs(s, p, i) ==> s[i] == p[0] && (|p| > 1 ==> s[i + 1] == p[1])
  {
    if Occurs(s, p, i) {
      assert s[i..i + |p|][0] == s[i];
      if |p| > 1 {
        assert s[i..i + |p|][1] == s[i + 1];
      }
    }
  }

  /** An occurrence that ends within a prefix is an occurrence in the prefix. */
  lemma OccursPrefix(a: string, t: string, p: string, i: int)
    requires 0 <= i && i + |p| <= |a|
    ensures Occurs(a + t, p, i) <==> Occurs(a, p, i)
  {
    assert (a + t)[i..i + |p|] == a[i..i + |p|];
  }

  /** Characters that cannot start `p` are copied unchanged. */
  lemma KeepAll(m: string, t: string, p: string, rep: string)
    requires p != []
    requires forall i :: 0 <= i < |m| ==> m[i] != p[0]
    ensures ReplaceAll(m + t, p, rep) == m + ReplaceAll(t, p, rep)
  {
    forall i | 0 <= i < |m|
      ensures !Occurs(m + t, p, i)
    {
      OccursFirst(m + t, p, i);
      assert (m + t)[i] == m[i];
    }
    ReplaceAllSkips(m, t, p, rep);
  }

  /** An occurrence at the front is replaced. */
  lemma StepReplace(t: string, p: string, rep: string)
    requires p != []
    ensures ReplaceAll(p + t, p, rep) == rep + ReplaceAll(t, p, rep)
  {
    assert (p + t)[..|p|] == p;
    assert (p + t)[|p|..] == t;
  }

  /** No whitespace in `w`. */
  predicate NoSpace(w: string) {
    forall i :: 0 <= i < |w| ==> !IsSpace(w[i])
  }

  /** Length of the run of non-whitespace characters at the start of `s`. */
  function WordLength(s: string): (n: nat)
    ensures n <= |s|
    ensures NoSpace(s[..n])
    ensures n < |s| ==> IsSpace(s[n])
  {
    if s == [] || IsSpace(s[0]) then 0 else 1 + WordLength(s[1..])
  }

  /** `s.split()`: the maximal runs of non-whitespace characters, in order. */
  function Split(s: string): (r: seq<string>)
    ensures s == [] ==> r == []
    ensures forall k :: 0 <= k < |r| ==> r[k] != [] && NoSpace(r[k])
    decreases |s|
  {
    if s == [] then []
    else if IsSpace(s[0]) then Split(s[1..])
    else
      var n := WordLength(s);
      [s[..n]] + Split(s[n..])
  }

  /** A word followed by whitespace is the first word of the split, and the
      rest is split as it stands. */
  lemma SplitWord(a: string, gap: string, t: string)
    requires a != [] && NoSpace(a)
    requires gap != [] && forall i :: 0 <= i < |gap| ==> IsSpace(gap[i])
    ensures Split(a + gap + t) == [a] + Split(t)
  {
    var s := a + gap + t;
    assert s == a + (gap + t);
    WordLengthOf(a, gap + t);
    assert s[..|a|] == a;
    assert s[|a|..] == gap + t;
    SplitSpaces(gap, t);
  }

  /** A word on its own splits into itself. */
  lemma SplitOne(a: string)
    requires a != [] && NoSpace(a)
    ensures Split(a) == [a]
  {
    assert a + [] == a;
    WordLengthOf(a, []);
    assert a[..|a|] == a && a[|a|..] == [];
  }

  /** Two words with whitespace between them split into exactly those two words. */
  lemma SplitTwo(a: string, gap: string, b: string)
    requires a != [] && NoSpace(a) && b != [] && NoSpace(b)
    requires gap != [] && forall i :: 0 <= i < |gap| ==> IsSpace(gap[i])
    ensures Split(a + gap + b) == [a, b]
  {
    SplitWord(a, gap, b);
    SplitOne(b);
  }

  lemma {:induction false} WordLengthOf(a: string, t: string)
    requires NoSpace(a)
    requires t == [] || IsSpace(t[0])
    ensures WordLength(a + t) == |a|
    decreases |a|
  {
    if a != [] {
      assert (a + t)[1..] == a[1..] + t;
      WordLengthOf(a[1..], t);
    }
  }

  lemma {:induction false} SplitSpaces(gap: string, t: string)
    requires forall i :: 0 <= i < |gap| ==> IsSpace(gap[i])
    ensures Split(gap + t) == Split(t)
    decreases |gap|
  {
    if gap == [] {
      assert gap + t == t;
    } else {
      assert (gap + t)[0] == gap[0];
      assert (gap + t)[1..] == gap[1..] + t;
      assert Split(gap + t) == Split(gap[1..] + t);
      SplitSpaces(gap[1..], t);
    }
  }

  /** `[p for p in parts if p]`: the non-empty strings of `parts`, in order. */
  function DropEmpty(parts: seq<string>): (r: seq<string>)
    ensures forall k :: 0 <= k < |r| ==> r[k] != []
  {
    if parts == [] then []
    else if parts[0] == [] then DropEmpty(parts[1..])
    else [parts[0]] + DropEmpty(parts[1..])
  }

  /** `split()` never yields an empty word, so the filter keeps every word. */
  lemma {:induction false} DropEmptyKeepsWords(parts: seq<string>)
    requires forall k :: 0 <= k < |parts| ==> parts[k] != []
    ensures DropEmpty(parts) == parts
  {
    if parts != [] {
      DropEmptyKeepsWords(parts[1..]);
    }
  }
}
