/**
  The handful of Python string operations the translator relies on:
  str.isspace / str.strip / str.split, str.startswith, str.index, str.join
  and str(int), each written out so that its behaviour can be reasoned about.
 */
module Text {

  datatype Option<T> = None | Some(value: T)

  /** Python's str.isspace for one character: the set str.strip() and
      str.split() (both without arguments) treat as whitespace. */
  predicate IsSpace(c: char) {
    var n := c as int;
    n == 0x20 || 0x09 <= n <= 0x0D || 0x1C <= n <= 0x1F || n == 0x85 || n == 0xA0 ||
    n == 0x1680 || 0x2000 <= n <= 0x200A || n == 0x2028 || n == 0x2029 ||
    n == 0x202F || n == 0x205F || n == 0x3000
  }

  /** The character classes the translator scans runs of. */
  datatype CharClass = Space | NonSpace | Digit | Lower

  /** Space and NonSpace: what strip() drops and split() keeps; Digit: the
      regex class \d (ASCII digits only); Lower: the regex class [a-z]. */
  predicate InClass(c: char, cls: CharClass) {
    match cls
    case Space => IsSpace(c)
    case NonSpace => !IsSpace(c)
    case Digit => '0' <= c <= '9'
    case Lower => 'a' <= c <= 'z'
  }

  /** Every character of s[lo..hi] is whitespace. */
  predicate SpaceBetween(s: string, lo: nat, hi: nat)
    requires lo <= hi <= |s|
  {
    forall k | lo <= k < hi :: IsSpace(s[k])
  }

  predicate NoSpace(s: string) {
    forall k | 0 <= k < |s| :: !IsSpace(s[k])
  }

  /** A string with no whitespace at either end: what strip() returns. */
  predicate Trimmed(s: string) {
    s == [] || (!IsSpace(s[0]) && !IsSpace(s[|s| - 1]))
  }

  // ---------------------------------------------------------------------
  // runs of characters

  /** Length of the longest run of characters of class cls starting at i. */
  function Run(s: string, i: nat, cls: CharClass): (n: nat)
    requires i <= |s|
    ensures i + n <= |s|
    ensures forall k | i <= k < i + n :: InClass(s[k], cls)
    ensures i + n == |s| || !InClass(s[i + n], cls)
    decreases |s| - i
  {
    if i < |s| && InClass(s[i], cls) then 1 + Run(s, i + 1, cls) else 0
  }

  /** Length of the longest run of characters of class cls ending just before j. */
  function RunBack(s: string, j: nat, cls: CharClass): (n: nat)
    requires j <= |s|
    ensures n <= j
    ensures forall k | j - n <= k < j :: InClass(s[k], cls)
    ensures n == j || !InClass(s[j - n - 1], cls)
  {
    if j > 0 && InClass(s[j - 1], cls) then 1 + RunBack(s, j - 1, cls) else 0
  }

  /** A run is determined by where it stops. */
  lemma RunExact(s: string, i: nat, cls: CharClass, n: nat)
    requires i + n <= |s|
    requires forall k | i <= k < i + n :: InClass(s[k], cls)
    requires i + n == |s| || !InClass(s[i + n], cls)
    ensures Run(s, i, cls) == n
  {
  }

  lemma RunBackExact(s: string, j: nat, cls: CharClass, n: nat)
    requires n <= j <= |s|
    requires forall k | j - n <= k < j :: InClass(s[k], cls)
    requires n == j || !InClass(s[j - n - 1], cls)
    ensures RunBack(s, j, cls) == n
  {
  }

  // ---------------------------------------------------------------------
  // strip()

  /** strip(): what is left once the leading and trailing whitespace is
      dropped; the input is that result with whitespace on either side. */
  function Strip(s: string): (r: string)
    ensures Trimmed(r)
    ensures var i := Run(s, 0, Space);
            i + |r| <= |s| && s[i..i + |r|] == r && SpaceBetween(s, 0, i) && SpaceBetween(s, i + |r|, |s|)
  {
    var a := Run(s, 0, Space);
    if a == |s| then []
    else
      var n := RunBack(s, |s|, Space);
      assert !InClass(s[a], Space);
      s[a..|s| - n]
  }

  /** The converse of Strip's contract: whatever sits between two runs of
      whitespace and has none at its own ends is what strip() returns. */
  lemma StripUnique(w1: string, m: string, w2: string)
    requires SpaceBetween(w1, 0, |w1|) && SpaceBetween(w2, 0, |w2|) && Trimmed(m)
    ensures Strip(w1 + m + w2) == m
  {
    var s := w1 + m + w2;
    if m == [] {
      assert forall k | 0 <= k < |s| :: InClass(s[k], Space) by {
        forall k | 0 <= k < |s| ensures InClass(s[k], Space) {
          if k < |w1| { assert s[k] == w1[k]; } else { assert s[k] == w2[k - |w1|]; }
        }
      }
      RunExact(s, 0, Space, |s|);
    } else {
      forall k | 0 <= k < |w1| ensures InClass(s[k], Space) { assert s[k] == w1[k]; }
      assert s[|w1|] == m[0];
      RunExact(s, 0, Space, |w1|);
      forall k | |s| - |w2| <= k < |s| ensures InClass(s[k], Space) { assert s[k] == w2[k - |w1| - |m|]; }
      assert s[|s| - |w2| - 1] == m[|m| - 1];
      RunBackExact(s, |s|, Space, |w2|);
      assert s[|w1|..|s| - |w2|] == m;
    }
  }

  /** Strip leaves a trimmed string alone. */
  lemma StripTrimmed(s: string)
    requires Trimmed(s)
    ensures Strip(s) == s
  {
    StripUnique([], s, []);
    assert [] + s + [] == s;
  }

  lemma SliceThree(x: string, i: nat, j: nat)
    requires i <= j <= |x|
    ensures x == x[..i] + x[i..j] + x[j..]
  {
  }

  lemma SpaceSlice(x: string, lo: nat, hi: nat)
    requires lo <= hi <= |x| && SpaceBetween(x, lo, hi)
    ensures SpaceBetween(x[lo..hi], 0, hi - lo)
  {
    forall k | 0 <= k < hi - lo ensures IsSpace(x[lo..hi][k]) { assert x[lo..hi][k] == x[lo + k]; }
  }

  /** strip() splits its input into leading whitespace, the result and trailing whitespace. */
  lemma StripParts(x: string)
    ensures var i := Run(x, 0, Space); var m := Strip(x);
      i + |m| <= |x| && x == x[..i] + m + x[i + |m|..] &&
      SpaceBetween(x[..i], 0, i) && SpaceBetween(x[i + |m|..], 0, |x| - i - |m|)
  {
    var i := Run(x, 0, Space);
    var j := i + |Strip(x)|;
    SliceThree(x, i, j);
    SpaceSlice(x, 0, i);
    assert x[..i] == x[0..i];
    SpaceSlice(x, j, |x|);
    assert x[j..] == x[j..|x|];
  }

  lemma SpacesConcat(w1: string, w2: string)
    requires SpaceBetween(w1, 0, |w1|) && SpaceBetween(w2, 0, |w2|)
    ensures SpaceBetween(w1 + w2, 0, |w1 + w2|)
  {
    forall k | 0 <= k < |w1 + w2| ensures IsSpace((w1 + w2)[k]) {
      if k < |w1| { assert (w1 + w2)[k] == w1[k]; } else { assert (w1 + w2)[k] == w2[k - |w1|]; }
    }
  }

  lemma Regroup(x: string, w1: string, m: string, w2: string, w: string)
    requires x == w1 + m + w2
    ensures x + w == w1 + m + (w2 + w)
  {
  }

  /** Trailing whitespace does not change what strip() returns. */
  lemma StripDropsTrailing(x: string, w: string)
    requires SpaceBetween(w, 0, |w|)
    ensures Strip(x + w) == Strip(x)
  {
    StripParts(x);
    var i := Run(x, 0, Space);
    var m := Strip(x);
    var w1 := x[..i];
    var w2 := x[i + |m|..];
    SpacesConcat(w2, w);
    Regroup(x, w1, m, w2, w);
    StripUnique(w1, m, w2 + w);
  }

  /** Stripping twice is stripping once (perform_parse strips every line
      and parse_line strips it again). */
  lemma StripIdempotent(s: string)
    ensures Strip(Strip(s)) == Strip(s)
  {
    StripUnique([], Strip(s), []);
    assert [] + Strip(s) + [] == Strip(s);
  }

  // ---------------------------------------------------------------------
  // split()[1]

  /** Where the second whitespace-separated word of s starts: past the
      leading whitespace, the first word and the whitespace after it. */
  function SecondWordStart(s: string): (a: nat)
    ensures a <= |s|
  {
    var a0 := Run(s, 0, Space);
    var b0 := a0 + Run(s, a0, NonSpace);
    b0 + Run(s, b0, Space)
  }

  /** s.split() has at least two elements. */
  predicate HasSecondWord(s: string) {
    SecondWordStart(s) < |s|
  }

  /** s.split()[1]: the second maximal run of non-whitespace characters. */
  function SecondWord(s: string): (w: string)
    requires HasSecondWord(s)
    ensures |w| > 0 && NoSpace(w)
    ensures var a := SecondWordStart(s); a + |w| <= |s| && s[a..a + |w|] == w
    ensures var a := SecondWordStart(s); a + |w| == |s| || IsSpace(s[a + |w|])
  {
    var a := SecondWordStart(s);
    assert !InClass(s[a], Space);
    s[a..a + Run(s, a, NonSpace)]
  }

  lemma PairFirstWord(s: string, d: string, a: string)
    requires |d| > 0 && NoSpace(d) && |a| > 0 && s == d + " " + a
    ensures Run(s, 0, Space) == 0 && Run(s, 0, NonSpace) == |d|
  {
    assert !InClass(s[0], Space) by { assert s[0] == d[0]; }
    RunExact(s, 0, Space, 0);
    forall k | 0 <= k < |d| ensures InClass(s[k], NonSpace) { assert s[k] == d[k]; }
    assert !InClass(s[|d|], NonSpace);
    RunExact(s, 0, NonSpace, |d|);
  }

  lemma PairSeparator(s: string, d: string, a: string)
    requires |a| > 0 && NoSpace(a) && s == d + " " + a
    ensures Run(s, |d|, Space) == 1
  {
    assert InClass(s[|d|], Space) && !InClass(s[|d| + 1], Space) by { assert s[|d| + 1] == a[0]; }
    RunExact(s, |d|, Space, 1);
  }

  lemma PairSecondWord(s: string, d: string, a: string)
    requires NoSpace(a) && s == d + " " + a
    ensures Run(s, |d| + 1, NonSpace) == |a| && s[|d| + 1..|d| + 1 + |a|] == a
  {
    forall k | |d| + 1 <= k < |s| ensures InClass(s[k], NonSpace) { assert s[k] == a[k - |d| - 1]; }
    RunExact(s, |d| + 1, NonSpace, |a|);
  }

  /** A directive word, one space and an argument: the argument is the second word. */
  lemma SecondWordOfPair(d: string, a: string)
    requires |d| > 0 && NoSpace(d) && |a| > 0 && NoSpace(a)
    ensures HasSecondWord(d + " " + a) && SecondWord(d + " " + a) == a
  {
    var s := d + " " + a;
    PairFirstWord(s, d, a);
    PairSeparator(s, d, a);
    PairSecondWord(s, d, a);
    assert SecondWordStart(s) == |d| + 1;
  }

  // ---------------------------------------------------------------------
  // startswith, index, join

  predicate StartsWith(s: string, p: string) {
    |p| <= |s| && s[..|p|] == p
  }

  predicate OccursAt(s: string, p: string, k: nat) {
    k + |p| <= |s| && s[k..k + |p|] == p
  }

  /** str.index(p, i): the first occurrence of p at or after i, if any. */
  function IndexFrom(s: string, p: string, i: nat): (r: Option<nat>)
    requires i <= |s|
    ensures r.Some? ==> i <= r.value && OccursAt(s, p, r.value) &&
                        forall k | i <= k < r.value :: !OccursAt(s, p, k)
    ensures r.None? ==> forall k | i <= k <= |s| :: !OccursAt(s, p, k)
    decreases |s| - i
  {
    if i + |p| > |s| then None
    else if s[i..i + |p|] == p then Some(i)
    else IndexFrom(s, p, i + 1)
  }

  function IndexOf(s: string, p: string): (r: Option<nat>)
    ensures r.Some? <==> exists k | 0 <= k <= |s| :: OccursAt(s, p, k)
    ensures r.Some? ==> OccursAt(s, p, r.value) && forall k | 0 <= k < r.value :: !OccursAt(s, p, k)
  {
    IndexFrom(s, p, 0)
  }

  /** sep.join(xs). */
  function Join(xs: seq<string>, sep: string): string
  {
    if |xs| == 0 then "" else if |xs| == 1 then xs[0] else xs[0] + sep + Join(xs[1..], sep)
  }

  lemma JoinPair(a: string, b: string, sep: string)
    ensures Join([a, b], sep) == a + sep + b
  {
    assert [a, b][1..] == [b];
  }

  function Count(c: char, s: string): nat
  {
    if |s| == 0 then 0 else (if s[0] == c then 1 else 0) + Count(c, s[1..])
  }

  function CountAll(c: char, xs: seq<string>): nat
  {
    if |xs| == 0 then 0 else Count(c, xs[0]) + CountAll(c, xs[1..])
  }

  lemma {:induction false} CountConcat(c: char, a: string, b: string)
    ensures Count(c, a + b) == Count(c, a) + Count(c, b)
  {
    if |a| > 0 {
      assert (a + b)[1..] == a[1..] + b;
      CountConcat(c, a[1..], b);
    } else {
      assert a + b == b;
    }
  }

  /** Joining with a separator that does not contain c adds no c. */
  lemma {:induction false} CountJoin(c: char, xs: seq<string>, sep: string)
    requires Count(c, sep) == 0
    ensures Count(c, Join(xs, sep)) == CountAll(c, xs)
  {
    if |xs| == 1 {
      assert xs[1..] == [];
    } else if |xs| > 1 {
      CountConcat(c, xs[0] + sep, Join(xs[1..], sep));
      CountConcat(c, xs[0], sep);
      CountJoin(c, xs[1..], sep);
    }
  }

  // ---------------------------------------------------------------------
  // str(int)

  function DigitChar(d: nat): (c: char)
    requires d < 10
    ensures '0' <= c <= '9' && (c as int) - ('0' as int) == d
  {
    ('0' as int + d) as char
  }

  /** The number a string of decimal digits denotes. */
  function DigitsValue(s: string): nat
    requires forall k | 0 <= k < |s| :: '0' <= s[k] <= '9'
  {
    if |s| == 0 then 0 else 10 * DigitsValue(s[..|s| - 1]) + ((s[|s| - 1] as int) - ('0' as int))
  }

  /** str(n) for n >= 0: decimal digits, no leading zero, denoting n. */
  function NatToString(n: nat): (r: string)
    ensures |r| > 0 && forall k | 0 <= k < |r| :: '0' <= r[k] <= '9'
    ensures r[0] != '0' || r == "0"
    ensures DigitsValue(r) == n
  {
    if n < 10 then [DigitChar(n)]
    else
      var r := NatToString(n / 10) + [DigitChar(n % 10)];
      assert r[..|r| - 1] == NatToString(n / 10);
      r
  }

  /** The value of Python's int() on what str() of an int produces. */
  function IntValue(s: string): int
  {
    if |s| > 0 && s[0] == '-' then
      if forall k | 1 <= k < |s| :: '0' <= s[k] <= '9' then 0 - DigitsValue(s[1..]) else 0
    else if forall k | 0 <= k < |s| :: '0' <= s[k] <= '9' then DigitsValue(s) else 0
  }

  /** str(i): a minus sign for negatives, then the digits of |i|; reading it back gives i. */
  function IntToString(i: int): (r: string)
    ensures |r| > 0 && IntValue(r) == i
    ensures i >= 0 <==> r[0] != '-'
    ensures NoSpace(r)
    ensures var d := if i < 0 then r[1..] else r;
      |d| > 0 && (forall k | 0 <= k < |d| :: '0' <= d[k] <= '9') && (d[0] != '0' || d == "0")
  {
    if i < 0 then
      var r := "-" + NatToString(-i);
      assert r[1..] == NatToString(-i);
      r
    else NatToString(i)
  }

  lemma FirstSpace(a: string, b: string)
    requires NoSpace(a)
    ensures (a + " " + b)[|a|] == ' '
    ensures forall k | 0 <= k < |a| :: (a + " " + b)[k] != ' '
  {
  }

  /** A word without spaces, a space and the rest: the first space splits it back. */
  lemma SplitAtSpace(a1: string, b1: string, a2: string, b2: string)
    requires NoSpace(a1) && NoSpace(a2)
    requires a1 + " " + b1 == a2 + " " + b2
    ensures a1 == a2 && b1 == b2
  {
    var s := a1 + " " + b1;
    FirstSpace(a1, b1);
    FirstSpace(a2, b2);
    assert a1 == s[..|a1|] == a2;
    assert b1 == s[|a1| + 1..] == b2;
  }

  /** str() is injective on ints. */
  lemma IntToStringInjective(i: int, j: int)
    requires IntToString(i) == IntToString(j)
    ensures i == j
  {
  }
}
