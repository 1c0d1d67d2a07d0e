/** The text parsers of parsers.py: review counts, prices and facility lists.
    Each regular expression of the source is an explicit scanner over
    positions of the input, and each scanner is proved against the regular
    language it stands for. */
module Parsers {
  import opened Values
  import opened Text

  // ---------------------------------------------------------------------
  // Digit groups: `\d{1,3}(?:[seps]\d{3})*`
  // ---------------------------------------------------------------------

  /** The language of `(?:[seps]\d{3})*`. */
  predicate IsGroups(u: string, seps: set<char>)
    decreases |u|
  {
    || u == []
    || (&& |u| >= 4 && u[0] in seps && IsDigit(u[1]) && IsDigit(u[2]) && IsDigit(u[3])
        && IsGroups(u[4..], seps))
  }

  /** The language of `\d{1,3}(?:[seps]\d{3})*`: one, two or three digits,
      then groups. */
  predicate IsGroupedNumber(u: string, seps: set<char>)
  {
    && |u| >= 1 && IsDigit(u[0])
    && (|| IsGroups(u[1..], seps)
        || (&& |u| >= 2 && IsDigit(u[1])
            && (IsGroups(u[2..], seps) || (|u| >= 3 && IsDigit(u[2]) && IsGroups(u[3..], seps)))))
  }

  /** No separator is a digit. */
  predicate DigitFree(seps: set<char>)
  {
    forall c :: c in seps ==> !IsDigit(c)
  }

  /** Where the greedy `(?:[seps]\d{3})*` that starts at `k` ends. */
  function GroupsEnd(s: string, k: nat, seps: set<char>): (j: nat)
    requires k <= |s|
    ensures k <= j <= |s|
    decreases |s| - k
  {
    if k + 4 <= |s| && s[k] in seps && IsDigit(s[k + 1]) && IsDigit(s[k + 2]) && IsDigit(s[k + 3])
    then GroupsEnd(s, k + 4, seps)
    else k
  }

  /** What the greedy repetition consumes is in its language. */
  lemma {:induction false} GroupsEndSound(s: string, k: nat, seps: set<char>)
    requires k <= |s|
    ensures IsGroups(s[k..GroupsEnd(s, k, seps)], seps)
    decreases |s| - k
  {
    var j := GroupsEnd(s, k, seps);
    if j > k {
      GroupsEndSound(s, k + 4, seps);
      assert s[k..j][4..] == s[k + 4..j];
    } else {
      assert s[k..j] == [];
    }
  }

  /** Greedy repetition consumes the longest run of groups. */
  lemma {:induction false} GroupsEndLongest(s: string, k: nat, seps: set<char>, m: nat)
    requires k <= |s| && GroupsEnd(s, k, seps) < m <= |s|
    ensures !IsGroups(s[k..m], seps)
    decreases |s| - k
  {
    var u := s[k..m];
    if k + 4 <= |s| && s[k] in seps && IsDigit(s[k + 1]) && IsDigit(s[k + 2]) && IsDigit(s[k + 3]) {
      assert u[4..] == s[k + 4..m];
      GroupsEndLongest(s, k + 4, seps, m);
    } else if m >= k + 4 {
      assert u[0] == s[k] && u[1] == s[k + 1] && u[2] == s[k + 2] && u[3] == s[k + 3];
    }
  }

  /** The groups found in a slice are the groups found in the whole, when
      they end inside the slice. */
  lemma {:induction false} GroupsEndWindow(s: string, p: nat, e: nat, k: nat, seps: set<char>)
    requires p <= k <= e <= |s| && GroupsEnd(s, k, seps) <= e
    ensures GroupsEnd(s[p..e], k - p, seps) == GroupsEnd(s, k, seps) - p
    decreases |s| - k
  {
    var r := s[p..e];
    if k + 4 <= |s| && s[k] in seps && IsDigit(s[k + 1]) && IsDigit(s[k + 2]) && IsDigit(s[k + 3]) {
      assert r[k - p] == s[k] && r[k - p + 1] == s[k + 1] && r[k - p + 2] == s[k + 2] && r[k - p + 3] == s[k + 3];
      GroupsEndWindow(s, p, e, k + 4, seps);
    } else if k + 4 <= e {
      assert r[k - p] == s[k] && r[k - p + 1] == s[k + 1] && r[k - p + 2] == s[k + 2] && r[k - p + 3] == s[k + 3];
    }
  }

  /** Where the greedy `\d{1,3}` that starts at `i` ends. */
  function Lead3End(s: string, i: nat): (j: nat)
    requires i <= |s|
    ensures i <= j <= |s| && j <= i + 3
    ensures i < |s| && IsDigit(s[i]) ==> i < j
  {
    var d := DigitsEnd(s, i);
    if d < i + 3 then d else i + 3
  }

  /** Where the greedy `\d{1,3}(?:[seps]\d{3})*` that starts at the digit at
      `i` ends. */
  function GroupedEnd(s: string, i: nat, seps: set<char>): (j: nat)
    requires i < |s| && IsDigit(s[i])
    ensures i < j <= |s|
  {
    GroupsEnd(s, Lead3End(s, i), seps)
  }

  /** What the greedy scan consumes is in the language. */
  lemma GroupedEndSound(s: string, i: nat, seps: set<char>)
    requires i < |s| && IsDigit(s[i])
    ensures IsGroupedNumber(s[i..GroupedEnd(s, i, seps)], seps)
  {
    var l := Lead3End(s, i);
    var j := GroupedEnd(s, i, seps);
    DigitsEndSpec(s, i);
    GroupsEndSound(s, l, seps);
    var u := s[i..j];
    assert u[l - i..] == s[l..j];
    assert u[0] == s[i];
    assert l > i + 1 ==> u[1] == s[i + 1];
    assert l > i + 2 ==> u[2] == s[i + 2];
  }

  /** No member of the language that starts at `i` is longer than what the
      greedy scan consumes. */
  lemma GroupedEndLongest(s: string, i: nat, seps: set<char>, m: nat)
    requires DigitFree(seps) && i < |s| && IsDigit(s[i])
    requires GroupedEnd(s, i, seps) < m <= |s|
    ensures !IsGroupedNumber(s[i..m], seps)
  {
    var l := Lead3End(s, i);
    var d := l - i;
    DigitsEndSpec(s, i);
    var v := s[i..m];
    forall d' | 1 <= d' <= 3 && d' <= |v| && (forall k :: 0 <= k < d' ==> IsDigit(v[k]))
      ensures !IsGroups(v[d'..], seps)
    {
      if d' < d {
        assert v[d'] == s[i + d'] && IsDigit(s[i + d']);
        assert v[d'..][0] == v[d'];
      } else if d' == d {
        assert v[d..] == s[l..m];
        GroupsEndLongest(s, l, seps, m);
      }
    }
  }

  /** The groups of a slice are those of the whole, when they end inside it. */
  lemma GroupedEndWindow(s: string, p: nat, e: nat, i: nat, seps: set<char>)
    requires p <= i < e <= |s| && IsDigit(s[i]) && GroupedEnd(s, i, seps) <= e
    ensures i - p < |s[p..e]| && IsDigit(s[p..e][i - p])
    ensures GroupedEnd(s[p..e], i - p, seps) == GroupedEnd(s, i, seps) - p
  {
    var l := Lead3End(s, i);
    DigitsEndWindow(s, p, e, i);
    assert Lead3End(s[p..e], i - p) == l - p;
    GroupsEndWindow(s, p, e, l, seps);
  }

  /** A non-empty greedy run of groups ends with three digits. */
  lemma {:induction false} GroupsEndTail(s: string, k: nat, seps: set<char>)
    requires k <= |s| && GroupsEnd(s, k, seps) > k
    ensures var j := GroupsEnd(s, k, seps);
      j >= k + 4 && IsDigit(s[j - 3]) && IsDigit(s[j - 2]) && IsDigit(s[j - 1])
    decreases |s| - k
  {
    if GroupsEnd(s, k + 4, seps) > k + 4 {
      GroupsEndTail(s, k + 4, seps);
    }
  }

  /** The last three positions the greedy scan consumes hold digits. */
  lemma GroupedEndTail(s: string, i: nat, seps: set<char>)
    requires i < |s| && IsDigit(s[i])
    ensures var g := GroupedEnd(s, i, seps);
      forall q :: i <= q < g && g <= q + 3 ==> IsDigit(s[q])
  {
    var l := Lead3End(s, i);
    DigitsEndSpec(s, i);
    if GroupsEnd(s, l, seps) > l {
      GroupsEndTail(s, l, seps);
    }
  }

  /** The first position holding a digit, or `|s|`. */
  function FirstDigit(s: string): (i: nat)
    ensures i <= |s|
    ensures forall j :: 0 <= j < i ==> !IsDigit(s[j])
    ensures i < |s| <==> HasDigit(s)
    ensures i < |s| ==> IsDigit(s[i])
  {
    if s == [] then 0
    else if IsDigit(s[0]) then 0
    else
      var i := 1 + FirstDigit(s[1..]);
      assert HasDigit(s) ==> HasDigit(s[1..]) by {
        if HasDigit(s) {
          var k :| 0 <= k < |s| && IsDigit(s[k]);
          assert k > 0 && IsDigit(s[1..][k - 1]);
        }
      }
      assert i < |s| ==> s[i] == s[1..][i - 1];
      i
  }

  /** `re.search(r'\d{1,3}(?:,\d{3})*', s)`: the start and end of the match. */
  function SearchGrouped(s: string): (r: Option<(nat, nat)>)
    ensures r.None? <==> !HasDigit(s)
    ensures r.Some? ==> r.value.0 < r.value.1 <= |s| && IsDigit(s[r.value.0])
  {
    var p := FirstDigit(s);
    if p == |s| then None else Some((p, GroupedEnd(s, p, {','})))
  }

  /** The search finds the leftmost occurrence of the language and, at that
      position, the longest. */
  lemma SearchGroupedSpec(s: string)
    requires SearchGrouped(s).Some?
    ensures var (p, e) := SearchGrouped(s).value;
      && IsGroupedNumber(s[p..e], {','})
      && (forall q, e' :: 0 <= q < p && q <= e' <= |s| ==> !IsGroupedNumber(s[q..e'], {','}))
      && (forall e' :: e < e' <= |s| ==> !IsGroupedNumber(s[p..e'], {','}))
  {
    var (p, e) := SearchGrouped(s).value;
    GroupedEndSound(s, p, {','});
    forall q, e' | 0 <= q < p && q <= e' <= |s| ensures !IsGroupedNumber(s[q..e'], {','}) {
    }
    forall e' | e < e' <= |s| ensures !IsGroupedNumber(s[p..e'], {','}) {
      GroupedEndLongest(s, p, {','}, e');
    }
  }

  /** `t.replace(',', '')`. */
  function RemoveCommas(t: string): (r: string)
    ensures forall i :: 0 <= i < |r| ==> r[i] != ','
  {
    if t == [] then [] else (if t[0] == ',' then [] else [t[0]]) + RemoveCommas(t[1..])
  }

  lemma {:induction false} RemoveCommasDigits(u: string)
    requires AllDigits(u)
    ensures RemoveCommas(u) == u
  {
    if u != [] {
      RemoveCommasDigits(u[1..]);
    }
  }

  lemma {:induction false} RemoveCommasAppend(a: string, b: string)
    ensures RemoveCommas(a + b) == RemoveCommas(a) + RemoveCommas(b)
  {
    if a != [] {
      assert (a + b)[1..] == a[1..] + b;
      RemoveCommasAppend(a[1..], b);
    } else {
      assert a + b == b;
    }
  }

  lemma {:induction false} GroupsDigits(u: string)
    requires IsGroups(u, {','})
    ensures AllDigits(RemoveCommas(u))
    decreases |u|
  {
    if u != [] {
      assert RemoveCommas(u) == RemoveCommas(u[1..]);
      assert u[1..] == u[1..4] + u[4..];
      RemoveCommasAppend(u[1..4], u[4..]);
      GroupsDigits(u[4..]);
      RemoveCommasDigits(u[1..4]);
    }
  }

  /** Removing the commas of a comma-grouped number leaves only digits. */
  lemma GroupedDigits(u: string)
    requires IsGroupedNumber(u, {','})
    ensures AllDigits(RemoveCommas(u))
  {
    var d := if IsGroups(u[1..], {','}) then 1 else if IsGroups(u[2..], {','}) then 2 else 3;
    assert u == u[..d] + u[d..];
    RemoveCommasAppend(u[..d], u[d..]);
    RemoveCommasDigits(u[..d]);
    GroupsDigits(u[d..]);
  }

  // ---------------------------------------------------------------------
  // Python's int() on a string
  // ---------------------------------------------------------------------

  /** `s.strip()`, for ASCII whitespace. */
  function StripSpace(s: string): (t: string)
    ensures forall k :: 0 <= k < |t| ==> t[k] in s
    decreases |s|
  {
    if s != [] && IsSpace(s[0]) then
      var t := StripSpace(s[1..]);
      assert forall k :: 0 <= k < |t| ==> t[k] in s[1..];
      t
    else if s != [] && IsSpace(s[|s| - 1]) then
      var t := StripSpace(s[..|s| - 1]);
      assert forall k :: 0 <= k < |t| ==> t[k] in s[..|s| - 1];
      t
    else s
  }

  /** Digits with single underscores between them, as `int()` accepts. */
  predicate IsIntBody(b: string)
  {
    && b != []
    && IsDigit(b[0]) && IsDigit(b[|b| - 1])
    && (forall i :: 0 <= i < |b| ==> IsDigit(b[i]) || b[i] == '_')
    && (forall i :: 0 <= i < |b| - 1 ==> !(b[i] == '_' && b[i + 1] == '_'))
  }

  /** The digits of `b`, in order. */
  function DigitsOnly(b: string): (ds: string)
    ensures AllDigits(ds)
  {
    if b == [] then [] else (if IsDigit(b[0]) then [b[0]] else []) + DigitsOnly(b[1..])
  }

  /** Python `int(s)` for a `str` argument; `None` stands for the ValueError.
      Only text that holds a digit converts. */
  function PyIntText(s: string): (r: Option<int>)
    ensures r.Some? ==> HasDigit(s)
  {
    var t := StripSpace(s);
    var k := if t != [] && (t[0] == '+' || t[0] == '-') then 1 else 0;
    var b := t[k..];
    if IsIntBody(b) then
      assert b[0] == t[k] && t[k] in s;
      var n: int := Number(DigitsOnly(b));
      Some(if k == 1 && t[0] == '-' then -n else n)
    else None
  }

  // ---------------------------------------------------------------------
  // parse_rating_count
  // ---------------------------------------------------------------------

  /** The string branch of `parse_rating_count`. */
  function CountText(s: string): Option<int>
  {
    var l := DigitsEnd(s, 0);
    if 'k' in s && l > 0 then
      DigitsEndSpec(s, 0);
      Some(Number(s[..l]) * 1000)
    else
      match SearchGrouped(s)
      case Some((p, e)) =>
        GroupedEndSound(s, p, {','});
        GroupedDigits(s[p..e]);
        Some(Number(RemoveCommas(s[p..e])))
      case None => PyIntText(s)
  }

  /** `parse_rating_count(value)`. A bool is an int in Python and comes back
      as 0 or 1. */
  function ParseRatingCount(v: PyVal): (r: Option<int>)
    ensures v.PInt? ==> r == Some(v.i)
    ensures v.PBool? ==> r == Some(if v.b then 1 else 0)
    ensures !v.PInt? && !v.PBool? && !v.PStr? ==> r == None
    ensures v.PStr? ==> (r == None <==> !HasDigit(v.s))
    ensures v.PStr? && r.Some? ==> r.value >= 0
  {
    match v
    case PInt(i) => Some(i)
    case PBool(b) => Some(if b then 1 else 0)
    case PStr(s) => CountText(s)
    case _ => None
  }

  /** The `k` rule: a string that holds `k` and starts with digits gives the
      number those leading digits spell times 1000 (`2k+` is 2000 and `1.5k`
      is 1000). */
  lemma KRule(s: string)
    requires 'k' in s && s != [] && IsDigit(s[0])
    ensures exists n ::
      && 0 < n <= |s| && AllDigits(s[..n]) && (n == |s| || !IsDigit(s[n]))
      && ParseRatingCount(PStr(s)) == Some(Number(s[..n]) * 1000)
  {
    DigitsEndSpec(s, 0);
    var n := DigitsEnd(s, 0);
    assert AllDigits(s[..n]);
  }

  /** The comma rule: otherwise the result is the leftmost, longest run of
      comma-grouped digits with its commas removed (`12345` is 123). */
  lemma CommaRule(s: string)
    requires !('k' in s && s != [] && IsDigit(s[0]))
    requires HasDigit(s)
    ensures exists p, e ::
      && 0 <= p < e <= |s|
      && IsGroupedNumber(s[p..e], {','})
      && (forall q :: 0 <= q < p ==> !IsDigit(s[q]))
      && (forall e' :: e < e' <= |s| ==> !IsGroupedNumber(s[p..e'], {','}))
      && AllDigits(RemoveCommas(s[p..e]))
      && ParseRatingCount(PStr(s)) == Some(Number(RemoveCommas(s[p..e])) as int)
  {
    var r := SearchGrouped(s);
    var p, e := r.value.0, r.value.1;
    SearchGroupedSpec(s);
    GroupedDigits(s[p..e]);
    assert DigitsEnd(s, 0) == 0 || 'k' !in s;
  }

  lemma RatingCountThousands()
    ensures ParseRatingCount(PStr("2k+")) == Some(2000)
    ensures ParseRatingCount(PStr("1.5k")) == Some(1000)
  {
    assert DigitsEnd("2k+", 0) == 1;
    assert "2k+"[..1] == "2";
    assert DigitsEnd("1.5k", 0) == 1;
    assert "1.5k"[..1] == "1";
  }

  lemma RatingCountUngrouped()
    ensures ParseRatingCount(PStr("12345")) == Some(123)
  {
    var s := "12345";
    assert FirstDigit(s) == 0;
    assert !('k' in s);
    assert DigitsEnd(s, 0) == 5;
    assert Lead3End(s, 0) == 3;
    assert s[3] !in {','};
    assert GroupsEnd(s, 3, {','}) == 3;
    assert SearchGrouped(s) == Some((0, 3));
    assert s[0..3] == "123";
    RemoveCommasDigits("123");
    assert "123"[..2] == "12" && "12"[..1] == "1" && "1"[..0] == "";
    assert Number("123") == 123;
  }

  lemma RatingCountNone()
    ensures ParseRatingCount(PStr("no reviews")) == None
  {
    assert !HasDigit("no reviews");
  }

  // ---------------------------------------------------------------------
  // parse_price
  // ---------------------------------------------------------------------

  const PriceSeps: set<char> := {'.', ','}

  lemma PriceSepsDigitFree()
    ensures DigitFree(PriceSeps)
  {
  }

  /** The currency symbols of the price pattern: `R$`, `$`, `€`, `£`. */
  predicate IsCurrency(c: string)
  {
    c == "R$" || c == "$" || c == "\U{20AC}" || c == "\U{A3}"
  }

  /** The language of `[.,]\d{2}`. */
  predicate IsCents(u: string)
  {
    |u| == 3 && u[0] in PriceSeps && IsDigit(u[1]) && IsDigit(u[2])
  }

  /** The language of `(\d{1,3}(?:[.,]\d{3})*)([.,]\d{2})?`. */
  predicate IsAmount(u: string)
  {
    || IsGroupedNumber(u, PriceSeps)
    || (|u| >= 4 && IsCents(u[|u| - 3..]) && IsGroupedNumber(u[..|u| - 3], PriceSeps))
  }

  /** The language of `\s?` followed by an amount. */
  predicate IsSpacedAmount(u: string)
  {
    IsAmount(u) || (|u| >= 1 && IsSpace(u[0]) && IsAmount(u[1..]))
  }

  /** The language of the whole price pattern
      `(R\$|\$|€|£)\s?(\d{1,3}(?:[.,]\d{3})*)([.,]\d{2})?`. */
  predicate IsPrice(t: string)
  {
    || (|t| >= 2 && IsCurrency(t[..2]) && IsSpacedAmount(t[2..]))
    || (|t| >= 1 && IsCurrency(t[..1]) && IsSpacedAmount(t[1..]))
  }

  /** Where the currency symbol that starts at `i` ends (`i` when there is
      none). The alternatives start with different characters, so their
      order in the pattern does not matter. */
  function CurrencyEnd(s: string, i: nat): (j: nat)
    requires i <= |s|
    ensures i <= j <= |s| && j <= i + 2
  {
    if i + 2 <= |s| && s[i] == 'R' && s[i + 1] == '$' then i + 2
    else if i < |s| && (s[i] == '$' || s[i] == '\U{20AC}' || s[i] == '\U{A3}') then i + 1
    else i
  }

  /** The scanner recognises exactly the currency symbols of the pattern. */
  lemma CurrencyEndSpec(s: string, i: nat)
    requires i <= |s|
    ensures CurrencyEnd(s, i) == i + 2 <==> i + 2 <= |s| && IsCurrency(s[i..i + 2])
    ensures CurrencyEnd(s, i) == i + 1 <==> i + 1 <= |s| && IsCurrency(s[i..i + 1])
  {
    assert i + 1 <= |s| ==> s[i..i + 1] == [s[i]];
    assert i + 2 <= |s| ==> s[i..i + 2] == [s[i], s[i + 1]];
  }

  /** Where the greedy `([.,]\d{2})?` that starts at `k` ends. */
  function CentsEnd(s: string, k: nat): (j: nat)
    requires k <= |s|
    ensures j == k || (j == k + 3 && j <= |s|)
  {
    if k + 3 <= |s| && s[k] in PriceSeps && IsDigit(s[k + 1]) && IsDigit(s[k + 2]) then k + 3 else k
  }

  /** Where the greedy amount that starts at the digit at `k` ends. */
  function AmountEnd(s: string, k: nat): (j: nat)
    requires k < |s| && IsDigit(s[k])
    ensures k < j <= |s|
  {
    CentsEnd(s, GroupedEnd(s, k, PriceSeps))
  }

  lemma AmountEndSound(s: string, k: nat)
    requires k < |s| && IsDigit(s[k])
    ensures IsAmount(s[k..AmountEnd(s, k)])
  {
    var g := GroupedEnd(s, k, PriceSeps);
    var n := AmountEnd(s, k);
    GroupedEndSound(s, k, PriceSeps);
    var u := s[k..n];
    if n == g + 3 {
      assert u[|u| - 3..] == s[g..n];
      assert u[..|u| - 3] == s[k..g];
    }
  }

  lemma AmountStartsWithDigit(u: string)
    requires IsAmount(u)
    ensures u != [] && IsDigit(u[0])
  {
    if !IsGroupedNumber(u, PriceSeps) {
      assert u[..|u| - 3][0] == u[0];
    }
  }

  /** The amount found in a slice is the amount found in the whole, when it
      ends inside the slice. */
  lemma AmountEndWindow(s: string, p: nat, e: nat, k: nat)
    requires p <= k < e <= |s| && IsDigit(s[k]) && AmountEnd(s, k) <= e
    ensures k - p < |s[p..e]| && IsDigit(s[p..e][k - p])
    ensures AmountEnd(s[p..e], k - p) == AmountEnd(s, k) - p
  {
    var r := s[p..e];
    var g := GroupedEnd(s, k, PriceSeps);
    GroupedEndWindow(s, p, e, k, PriceSeps);
    if g + 3 <= e {
      assert r[g - p] == s[g] && r[g - p + 1] == s[g + 1] && r[g - p + 2] == s[g + 2];
    }
  }

  /** Where the price pattern that starts at `i` ends, if it matches there. */
  function PriceEnd(s: string, i: nat): (r: Option<nat>)
    requires i <= |s|
    ensures r.Some? ==> i < r.value <= |s|
  {
    var c := CurrencyEnd(s, i);
    var j := if c < |s| && IsSpace(s[c]) then c + 1 else c;
    if c > i && j < |s| && IsDigit(s[j]) then Some(AmountEnd(s, j)) else None
  }

  /** The scanner's match is in the language. */
  lemma PriceEndSound(s: string, i: nat)
    requires i <= |s| && PriceEnd(s, i).Some?
    ensures IsPrice(s[i..PriceEnd(s, i).value])
  {
    var c := CurrencyEnd(s, i);
    var j := if c < |s| && IsSpace(s[c]) then c + 1 else c;
    var e := PriceEnd(s, i).value;
    CurrencyEndSpec(s, i);
    AmountEndSound(s, j);
    var t := s[i..e];
    assert t[..c - i] == s[i..c];
    assert t[c - i..] == s[c..e];
    if j == c + 1 {
      assert s[c..e][1..] == s[j..e];
    }
  }

  /** Where the scanner finds nothing at `i`, no price starts at `i`. */
  lemma PriceEndComplete(s: string, i: nat, e: nat)
    requires i <= e <= |s| && IsPrice(s[i..e])
    ensures PriceEnd(s, i).Some?
  {
    var t := s[i..e];
    var c := if |t| >= 2 && IsCurrency(t[..2]) && IsSpacedAmount(t[2..]) then i + 2 else i + 1;
    assert t[..c - i] == s[i..c];
    CurrencyEndSpec(s, i);
    assert CurrencyEnd(s, i) == c;
    var u := s[c..e];
    assert t[c - i..] == u;
    if IsAmount(u) {
      AmountStartsWithDigit(u);
      assert u[0] == s[c];
    } else {
      AmountStartsWithDigit(u[1..]);
      assert u[0] == s[c] && u[1..][0] == s[c + 1];
    }
  }

  /** A grouped number followed by cents ends no later than the greedy
      amount: the separator of the cents cannot stand inside the greedy
      groups, and right after them the scanner takes the cents too. */
  lemma CentsAmountBound(s: string, k: nat, q: nat)
    requires k < q && q + 3 <= |s| && IsDigit(s[k])
    requires IsGroupedNumber(s[k..q], PriceSeps) && IsCents(s[q..q + 3])
    ensures q + 3 <= AmountEnd(s, k)
  {
    var g := GroupedEnd(s, k, PriceSeps);
    PriceSepsDigitFree();
    assert s[q..q + 3][0] == s[q] && s[q..q + 3][1] == s[q + 1] && s[q..q + 3][2] == s[q + 2];
    if q > g {
      GroupedEndLongest(s, k, PriceSeps, q);
    } else if q < g {
      GroupedEndTail(s, k, PriceSeps);
    }
  }

  /** No amount that starts at `k` is longer than the greedy one: a
      separator with two digits could only stand where a group of three
      digits was already taken, and a group is one character longer. */
  lemma AmountEndLongest(s: string, k: nat, m: nat)
    requires k < |s| && IsDigit(s[k]) && AmountEnd(s, k) < m <= |s|
    ensures !IsAmount(s[k..m])
  {
    var u := s[k..m];
    if |u| >= 4 {
      assert u[..|u| - 3] == s[k..m - 3];
      assert u[|u| - 3..] == s[m - 3..m];
    }
    PriceSepsDigitFree();
    if IsGroupedNumber(u, PriceSeps) {
      GroupedEndLongest(s, k, PriceSeps, m);
    } else if |u| >= 4 && IsCents(u[|u| - 3..]) && IsGroupedNumber(u[..|u| - 3], PriceSeps) {
      AmountStartsWithDigit(u);
      CentsAmountBound(s, k, m - 3);
    }
  }

  /** A price that starts at `i` has its currency symbol where the scanner
      looks for it, and a spaced amount after it. */
  lemma PriceCurrency(s: string, i: nat, m: nat)
    requires i <= m <= |s| && IsPrice(s[i..m])
    ensures i < CurrencyEnd(s, i) <= m && IsSpacedAmount(s[CurrencyEnd(s, i)..m])
  {
    var t := s[i..m];
    CurrencyEndSpec(s, i);
    if |t| >= 2 && IsCurrency(t[..2]) && IsSpacedAmount(t[2..]) {
      assert t[..2] == s[i..i + 2];
      assert t[2..] == s[i + 2..m];
    } else {
      assert t[..1] == s[i..i + 1];
      assert t[1..] == s[i + 1..m];
    }
  }

  /** A spaced amount from `c` ends no later than the greedy amount the
      scanner finds after the optional space. */
  lemma SpacedAmountLongest(s: string, c: nat, m: nat)
    requires c <= m <= |s| && IsSpacedAmount(s[c..m])
    ensures var j := if c < |s| && IsSpace(s[c]) then c + 1 else c;
      j < |s| && IsDigit(s[j]) && m <= AmountEnd(s, j)
  {
    var v := s[c..m];
    if IsAmount(v) {
      AmountStartsWithDigit(v);
      assert v[0] == s[c];
      if AmountEnd(s, c) < m {
        AmountEndLongest(s, c, m);
      }
    } else {
      AmountStartsWithDigit(v[1..]);
      assert v[0] == s[c] && v[1..][0] == s[c + 1];
      assert v[1..] == s[c + 1..m];
      if AmountEnd(s, c + 1) < m {
        AmountEndLongest(s, c + 1, m);
      }
    }
  }

  /** No price that starts at `i` is longer than the one the scanner finds,
      as with the greedy groups of `re.search`. */
  lemma PriceEndLongest(s: string, i: nat, m: nat)
    requires i <= |s| && PriceEnd(s, i).Some? && PriceEnd(s, i).value < m <= |s|
    ensures !IsPrice(s[i..m])
  {
    var c := CurrencyEnd(s, i);
    var j := if c < |s| && IsSpace(s[c]) then c + 1 else c;
    assert IsDigit(s[j]) && PriceEnd(s, i) == Some(AmountEnd(s, j));
    if IsPrice(s[i..m]) {
      PriceCurrency(s, i, m);
      SpacedAmountLongest(s, c, m);
    }
  }

  /** No price from `p` ends after `e`. */
  predicate NoLongerPrice(s: string, p: nat, e: nat)
    requires p <= e <= |s|
  {
    forall e' :: e < e' <= |s| ==> !IsPrice(s[p..e'])
  }

  /** The match the scanner finds depends on nothing outside it. */
  lemma PriceEndWindow(s: string, i: nat, e: nat)
    requires i <= |s| && PriceEnd(s, i) == Some(e)
    ensures PriceEnd(s[i..e], 0) == Some(e - i)
  {
    var r := s[i..e];
    var c := CurrencyEnd(s, i);
    var j := if c < |s| && IsSpace(s[c]) then c + 1 else c;
    assert r[0] == s[i];
    assert c == i + 2 ==> r[1] == s[i + 1];
    assert CurrencyEnd(r, 0) == c - i;
    assert r[c - i] == s[c];
    assert r[j - i] == s[j];
    AmountEndWindow(s, i, e, j);
  }

  /** The scanner matches at no position in `[i, p)`. */
  predicate NoMatchFrom(s: string, i: nat, p: nat)
    requires p <= |s|
    decreases p - i
  {
    i >= p || (PriceEnd(s, i).None? && NoMatchFrom(s, i + 1, p))
  }

  /** `re.search` of the price pattern from position `i` on: the leftmost
      position where the scanner matches, with the match's end. */
  function FindPrice(s: string, i: nat): (r: Option<(nat, nat)>)
    requires i <= |s|
    ensures r.Some? ==> i <= r.value.0 < r.value.1 <= |s|
    ensures r.Some? ==> PriceEnd(s, r.value.0) == Some(r.value.1) && NoMatchFrom(s, i, r.value.0)
    ensures r.None? ==> NoMatchFrom(s, i, |s|)
    decreases |s| - i
  {
    match PriceEnd(s, i)
    case Some(e) => Some((i, e))
    case None => if i == |s| then None else FindPrice(s, i + 1)
  }

  /** No substring of `s` that starts in `[i, p)` is a price. */
  predicate NoPriceIn(s: string, i: nat, p: nat)
    requires p <= |s|
  {
    forall q, e :: i <= q < p && q <= e <= |s| ==> !IsPrice(s[q..e])
  }

  lemma NoPriceAt(s: string, q: nat)
    requires q <= |s| && PriceEnd(s, q).None?
    ensures forall e :: q <= e <= |s| ==> !IsPrice(s[q..e])
  {
    forall e | q <= e <= |s| ensures !IsPrice(s[q..e]) {
      if IsPrice(s[q..e]) {
        PriceEndComplete(s, q, e);
      }
    }
  }

  lemma {:induction false} NoMatchNoPrice(s: string, i: nat, p: nat)
    requires i <= p <= |s| && NoMatchFrom(s, i, p)
    ensures NoPriceIn(s, i, p)
    decreases p - i
  {
    if i < p {
      assert PriceEnd(s, i).None? && NoMatchFrom(s, i + 1, p);
      NoPriceAt(s, i);
      NoMatchNoPrice(s, i + 1, p);
      forall q, e | i <= q < p && q <= e <= |s| ensures !IsPrice(s[q..e]) {
        if q > i {
          assert i + 1 <= q;
        }
      }
    }
  }

  /** The search agrees with the language: what it finds is a price, no
      price starts earlier and none from the same start is longer; when it
      finds nothing, `s` holds no price. */
  lemma FindPriceLeftmost(s: string)
    ensures FindPrice(s, 0).None? ==> forall q, e :: 0 <= q <= e <= |s| ==> !IsPrice(s[q..e])
    ensures FindPrice(s, 0).Some? ==>
      var (p, e) := FindPrice(s, 0).value; IsPrice(s[p..e]) && NoPriceIn(s, 0, p) && NoLongerPrice(s, p, e)
  {
    var r := FindPrice(s, 0);
    if r.Some? {
      var (p, e) := r.value;
      NoMatchNoPrice(s, 0, p);
      PriceEndSound(s, p);
      forall e' | e < e' <= |s| ensures !IsPrice(s[p..e']) {
        PriceEndLongest(s, p, e');
      }
    } else {
      NoMatchNoPrice(s, 0, |s|);
      assert PriceEnd(s, |s|).None?;
      NoPriceAt(s, |s|);
    }
  }

  /** `r` occurs in `s` at position `p`. */
  predicate OccursAt(r: string, s: string, p: nat)
  {
    p + |r| <= |s| && s[p..p + |r|] == r
  }

  /** `parse_price(value)`: the first substring that is a currency symbol and
      an amount, taken as long as the pattern allows, or the whole input when
      there is none. */
  function ParsePrice(s: string): (r: string)
    ensures FindPrice(s, 0).None? ==> r == s
    ensures FindPrice(s, 0).Some? ==>
      && IsPrice(r)
      && exists p: nat :: OccursAt(r, s, p) && NoPriceIn(s, 0, p) && NoLongerPrice(s, p, p + |r|)
  {
    FindPriceLeftmost(s);
    match FindPrice(s, 0)
    case None => s
    case Some((p, e)) =>
      var r := s[p..e];
      assert p + |r| == e && OccursAt(r, s, p);
      assert IsPrice(r) && NoPriceIn(s, 0, p) && NoLongerPrice(s, p, p + |r|);
      r
  }

  /** A string that holds no price comes back unchanged. */
  lemma ParsePriceNoPrice(s: string)
    requires forall q, e :: 0 <= q <= e <= |s| ==> !IsPrice(s[q..e])
    ensures ParsePrice(s) == s
  {
    FindPriceLeftmost(s);
  }

  /** When `parse_price` changes its input, the result starts with one of the
      currency symbols and occurs in the input. */
  lemma ParsePriceShape(s: string)
    requires ParsePrice(s) != s
    ensures var r := ParsePrice(s);
      (|r| >= 2 && IsCurrency(r[..2])) || (|r| >= 1 && IsCurrency(r[..1]))
    ensures exists p :: OccursAt(ParsePrice(s), s, p)
  {
    var r := ParsePrice(s);
    assert FindPrice(s, 0).Some?;
    var (p, e) := FindPrice(s, 0).value;
    assert r == s[p..e];
    assert IsPrice(r);
    assert OccursAt(r, s, p);
  }

  /** `parse_price` is idempotent. */
  lemma ParsePriceIdempotent(s: string)
    ensures ParsePrice(ParsePrice(s)) == ParsePrice(s)
  {
    match FindPrice(s, 0)
    case None =>
    case Some((p, e)) =>
      var r := s[p..e];
      PriceEndWindow(s, p, e);
      assert FindPrice(r, 0) == Some((0, |r|));
      assert r[0..|r|] == r;
  }

  // ---------------------------------------------------------------------
  // parse_facilities
  // ---------------------------------------------------------------------

  /** `parse_facilities(values)`: the facilities joined with `;`. Splitting the
      result on `;` gives back the list, when it is not empty and no facility
      contains `;`. */
  function ParseFacilities(values: seq<string>): (r: string)
    ensures values != [] && (forall i :: 0 <= i < |values| ==> ';' !in values[i]) ==>
              Split(r, ';') == values
  {
    if values != [] && (forall i :: 0 <= i < |values| ==> ';' !in values[i]) then
      SplitJoin(values, ';');
      Join(values, ";")
    else Join(values, ";")
  }
}
