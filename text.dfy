/** Character classes, digit runs, decimal values, joining and splitting:
    the building blocks of the scanners that stand for the source's regular
    expressions. Digits and whitespace are ASCII only. */
module Text {

  /** `\d` restricted to ASCII. */
  predicate IsDigit(c: char)
  {
    '0' <= c <= '9'
  }

  /** `\s` restricted to ASCII: space, tab, line feed, vertical tab, form feed,
      carriage return. */
  predicate IsSpace(c: char)
  {
    c == ' ' || c == '\t' || c == '\n' || c == '\r' || c == '\U{B}' || c == '\U{C}'
  }

  predicate AllDigits(s: string)
  {
    forall i :: 0 <= i < |s| ==> IsDigit(s[i])
  }

  predicate HasDigit(s: string)
  {
    exists i :: 0 <= i < |s| && IsDigit(s[i])
  }

  function DigitValue(c: char): (d: nat)
    requires IsDigit(c)
    ensures d < 10
  {
    (c as int) - ('0' as int)
  }

  /** The number a string of decimal digits denotes (Python `int(ds)`). */
  function Number(ds: string): nat
    requires AllDigits(ds)
  {
    if ds == [] then 0 else Number(ds[..|ds| - 1]) * 10 + DigitValue(ds[|ds| - 1])
  }

  /** The end of the run of digits that starts at position `i`. */
  function DigitsEnd(s: string, i: nat): (j: nat)
    requires i <= |s|
    ensures i <= j <= |s|
    decreases |s| - i
  {
    if i < |s| && IsDigit(s[i]) then DigitsEnd(s, i + 1) else i
  }

  /** The run is all digits and cannot be extended. */
  lemma {:induction false} DigitsEndSpec(s: string, i: nat)
    requires i <= |s|
    ensures forall k :: i <= k < DigitsEnd(s, i) ==> IsDigit(s[k])
    ensures DigitsEnd(s, i) < |s| ==> !IsDigit(s[DigitsEnd(s, i)])
    decreases |s| - i
  {
    if i < |s| && IsDigit(s[i]) {
      DigitsEndSpec(s, i + 1);
    }
  }

  lemma DigitsSlice(s: string, a: nat, b: nat)
    requires a <= b <= |s|
    requires forall k :: a <= k < b ==> IsDigit(s[k])
    ensures AllDigits(s[a..b])
  {
    assert forall i :: 0 <= i < b - a ==> s[a..b][i] == s[a + i];
  }

  /** A run of digits from `a` to `b` lies inside the scanner's run, and is
      the scanner's run when no digit follows it. */
  lemma {:induction false} DigitsEndReaches(s: string, a: nat, b: nat)
    requires a <= b <= |s|
    requires forall i :: a <= i < b ==> IsDigit(s[i])
    ensures DigitsEnd(s, a) >= b
    ensures b == |s| || !IsDigit(s[b]) ==> DigitsEnd(s, a) == b
    decreases b - a
  {
    if a < b {
      DigitsEndReaches(s, a + 1, b);
    }
  }

  /** The digit run of a slice is the digit run of the whole, cut at the
      slice's end. */
  lemma {:induction false} DigitsEndWindow(s: string, p: nat, e: nat, i: nat)
    requires p <= i <= e <= |s|
    ensures DigitsEnd(s[p..e], i - p) == (if DigitsEnd(s, i) < e then DigitsEnd(s, i) else e) - p
    decreases e - i
  {
    if i < e && IsDigit(s[i]) {
      DigitsEndWindow(s, p, e, i + 1);
    }
  }

  /** `10^n`. */
  function Pow10(n: nat): (p: nat)
    ensures p >= 1
  {
    if n == 0 then 1 else 10 * Pow10(n - 1)
  }

  /** The exact value of the decimal text `whole.frac`, as Python's `float`
      would read it without rounding. */
  function DecimalValue(whole: string, frac: string): (r: real)
    requires AllDigits(whole) && AllDigits(frac)
    ensures r >= 0.0
  {
    Number(whole) as real + (Number(frac) as real) / (Pow10(|frac|) as real)
  }

  /** `sep.join(xs)`. */
  function Join(xs: seq<string>, sep: string): string
  {
    if xs == [] then ""
    else if |xs| == 1 then xs[0]
    else xs[0] + sep + Join(xs[1..], sep)
  }

  /** The index of the first `c` in `s`, or `|s|` when there is none. */
  function IndexOf(s: string, c: char): (i: nat)
    ensures i <= |s|
    ensures forall j :: 0 <= j < i ==> s[j] != c
    ensures i < |s| ==> s[i] == c
  {
    if s == [] then 0 else if s[0] == c then 0 else 1 + IndexOf(s[1..], c)
  }

  /** Python `s.split(c)` for a one-character separator: the pieces between
      the occurrences of `c`; a string without `c` is a single piece. */
  function Split(s: string, c: char): (parts: seq<string>)
    ensures |parts| >= 1
    decreases |s|
  {
    var i := IndexOf(s, c);
    if i == |s| then [s] else [s[..i]] + Split(s[i + 1..], c)
  }

  /** The number of occurrences of `c` in `s`. */
  function Count(s: string, c: char): nat
  {
    if s == [] then 0 else (if s[0] == c then 1 else 0) + Count(s[1..], c)
  }

  lemma {:induction false} CountAppend(a: string, b: string, c: char)
    ensures Count(a + b, c) == Count(a, c) + Count(b, c)
  {
    if a == [] {
      assert a + b == b;
    } else {
      assert (a + b)[1..] == a[1..] + b;
      CountAppend(a[1..], b, c);
    }
  }

  lemma {:induction false} IndexOfPrefix(x: string, c: char, y: string)
    requires c !in x
    ensures IndexOf(x + [c] + y, c) == |x|
  {
    if x != [] {
      assert (x + [c] + y)[1..] == x[1..] + [c] + y;
      IndexOfPrefix(x[1..], c, y);
    }
  }

  lemma {:induction false} IndexOfAbsent(x: string, c: char)
    requires c !in x
    ensures IndexOf(x, c) == |x|
  {
    if x != [] {
      IndexOfAbsent(x[1..], c);
    }
  }

  /** Splitting a join recovers the pieces, provided there is at least one
      piece and no piece contains the separator. */
  lemma {:induction false} SplitJoin(xs: seq<string>, c: char)
    requires xs != []
    requires forall i :: 0 <= i < |xs| ==> c !in xs[i]
    ensures Split(Join(xs, [c]), c) == xs
  {
    if |xs| == 1 {
      IndexOfAbsent(xs[0], c);
    } else {
      var rest := Join(xs[1..], [c]);
      var s := xs[0] + [c] + rest;
      assert Join(xs, [c]) == s;
      assert c !in xs[0];
      IndexOfPrefix(xs[0], c, rest);
      assert s[..|xs[0]|] == xs[0];
      assert s[|xs[0]| + 1..] == rest;
      assert Split(s, c) == [xs[0]] + Split(rest, c);
      assert forall i :: 0 <= i < |xs[1..]| ==> c !in xs[1..][i] by {
        forall i | 0 <= i < |xs[1..]| ensures c !in xs[1..][i] {
          assert xs[1..][i] == xs[i + 1];
        }
      }
      SplitJoin(xs[1..], c);
      assert xs == [xs[0]] + xs[1..];
    }
  }
}
