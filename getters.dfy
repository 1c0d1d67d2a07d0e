/** The field getters of getters.py. Every browser lookup of a place page is
    an input (what it read, or that it raised); what remains is the order in
    which the getters try their lookups, the URL coordinate parsing, the star
    digits and the dispatch by column name. */
module Getters {
  import opened Values
  import opened Text
  import opened Parsers
  import Database

  /** What each browser lookup of one place page gives. Attribute lookups may
      read `None`; text lookups always read a string. The two panel strategies
      of the description read the texts of every description element (the
      first strategy raises when any of its tab clicks raises). */
  datatype Page = Page(
    url: string,
    name: Lookup<string>,
    aboutTexts: Lookup<seq<string>>,
    panelTexts: Lookup<seq<string>>,
    summary: Lookup<string>,
    authorityHref: Lookup<Option<string>>,
    buttonHref: Lookup<Option<string>>,
    rating: Lookup<string>,
    reviewsLabel: Lookup<Option<string>>,
    reviewsText: Lookup<string>,
    phone: Lookup<string>,
    address: Lookup<string>,
    starsText: Lookup<Option<string>>,
    image: Lookup<Option<string>>,
    priceLabel: Lookup<Option<string>>,
    priceText: Lookup<string>,
    priceDetail: Lookup<string>,
    facilities: Lookup<seq<string>>)

  // ---------------------------------------------------------------------
  // Ranked fallback chains
  // ---------------------------------------------------------------------

  /** The position of the first lookup that did not raise, or `|chain|`. */
  function FirstFound<T>(chain: seq<Lookup<T>>): (k: nat)
    ensures k <= |chain|
    ensures forall j :: 0 <= j < k ==> chain[j].Raises?
    ensures k < |chain| ==> chain[k].Found?
  {
    if chain == [] then 0 else if chain[0].Found? then 0 else 1 + FirstFound(chain[1..])
  }

  /** A chain of nested `try`/`except`: the value of the first lookup that
      succeeds, or `default` when every lookup raises. */
  function Chain<T>(chain: seq<Lookup<T>>, default: T): T
  {
    var k := FirstFound(chain);
    if k < |chain| then chain[k].value else default
  }

  /** A lookup inside `try: x = ... except: x = None`. */
  function OrNone<T>(l: Lookup<T>): (r: Option<T>)
    ensures r.Some? <==> l.Found?
    ensures r.Some? ==> r.value == l.value
  {
    match l
    case Found(v) => Some(v)
    case Raises => None
  }

  /** A text lookup seen as a lookup that may read `None`. */
  function Lift<T>(l: Lookup<T>): (r: Lookup<Option<T>>)
    ensures r.Found? <==> l.Found?
    ensures r.Found? ==> r.value == Some(l.value)
  {
    match l
    case Found(v) => Found(Some(v))
    case Raises => Raises
  }

  // ---------------------------------------------------------------------
  // get_description
  // ---------------------------------------------------------------------

  /** The non-empty texts, in order. */
  function NonEmpty(ts: seq<string>): (r: seq<string>)
    ensures forall i :: 0 <= i < |r| ==> r[i] != ""
    ensures r == [] <==> forall i :: 0 <= i < |ts| ==> ts[i] == ""
  {
    if ts == [] then []
    else
      var rest := NonEmpty(ts[1..]);
      assert (forall i :: 0 <= i < |ts| ==> ts[i] == "") <==>
             ts[0] == "" && (forall i :: 0 <= i < |ts[1..]| ==> ts[1..][i] == "") by {
        if ts[0] == "" && (forall i :: 0 <= i < |ts[1..]| ==> ts[1..][i] == "") {
          forall i | 0 <= i < |ts| ensures ts[i] == "" {
            if i > 0 {
              assert ts[i] == ts[1..][i - 1];
            }
          }
        }
      }
      if ts[0] == "" then rest else [ts[0]] + rest
  }

  /** Joining non-empty pieces gives the empty string only when there are
      none. */
  lemma {:induction false} JoinNonEmpty(xs: seq<string>, sep: string)
    requires forall i :: 0 <= i < |xs| ==> xs[i] != ""
    ensures Join(xs, sep) == "" <==> xs == []
  {
    if |xs| > 1 {
      assert |Join(xs, sep)| >= |xs[0]|;
    }
  }

  /** One strategy of the description: the description elements' non-empty
      texts joined with line feeds, or `""` when a lookup raises. */
  function PanelText(l: Lookup<seq<string>>): (d: string)
    ensures d == "" <==> l.Raises? || forall i :: 0 <= i < |l.value| ==> l.value[i] == ""
  {
    match l
    case Raises => ""
    case Found(ts) =>
      JoinNonEmpty(NonEmpty(ts), "\n");
      Join(NonEmpty(ts), "\n")
  }

  /** The text of the summary line, or `""` when its lookup raises. */
  function SummaryText(l: Lookup<string>): (d: string)
    ensures l.Raises? ==> d == ""
    ensures l.Found? ==> d == l.value
  {
    match l
    case Raises => ""
    case Found(t) => t
  }

  /** The first non-empty candidate, or `""`. */
  function FirstNonEmpty(cands: seq<string>): (r: string)
    ensures r == "" <==> forall i :: 0 <= i < |cands| ==> cands[i] == ""
    ensures r != "" ==> exists k :: 0 <= k < |cands| && cands[k] == r && forall j :: 0 <= j < k ==> cands[j] == ""
  {
    if cands == [] then ""
    else if cands[0] != "" then cands[0]
    else
      var r := FirstNonEmpty(cands[1..]);
      assert r != "" ==> exists k :: 0 <= k < |cands| && cands[k] == r && forall j :: 0 <= j < k ==> cands[j] == "" by {
        if r != "" {
          var k :| 0 <= k < |cands[1..]| && cands[1..][k] == r && forall j :: 0 <= j < k ==> cands[1..][j] == "";
          assert cands[k + 1] == r;
          forall j | 0 <= j < k + 1 ensures cands[j] == "" {
            if j > 0 {
              assert cands[j] == cands[1..][j - 1];
            }
          }
        }
      }
      assert (forall i :: 0 <= i < |cands[1..]| ==> cands[1..][i] == "") ==> forall i :: 0 <= i < |cands| ==> cands[i] == "" by {
        if forall i :: 0 <= i < |cands[1..]| ==> cands[1..][i] == "" {
          forall i | 0 <= i < |cands| ensures cands[i] == "" {
            if i > 0 {
              assert cands[i] == cands[1..][i - 1];
            }
          }
        }
      }
      r
  }

  /** `get_description(page)`: the About tab's texts, else the texts already
      on the panel, else the summary line, else `""`. */
  function GetDescription(p: Page): (d: string)
    ensures d == "" <==> PanelText(p.aboutTexts) == "" && PanelText(p.panelTexts) == "" && SummaryText(p.summary) == ""
  {
    var d1 := PanelText(p.aboutTexts);
    if d1 != "" then d1
    else
      var d2 := PanelText(p.panelTexts);
      if d2 != "" then d2 else SummaryText(p.summary)
  }

  /** The description is the first of the three strategies that gives a
      non-empty text. */
  lemma DescriptionFirstNonEmpty(p: Page)
    ensures GetDescription(p) == FirstNonEmpty([PanelText(p.aboutTexts), PanelText(p.panelTexts), SummaryText(p.summary)])
  {
    var cands := [PanelText(p.aboutTexts), PanelText(p.panelTexts), SummaryText(p.summary)];
    assert cands[1..] == [cands[1], cands[2]];
    assert cands[1..][1..] == [cands[2]];
    assert cands[1..][1..][1..] == [];
  }

  // ---------------------------------------------------------------------
  // get_link, get_rating_count, get_price
  // ---------------------------------------------------------------------

  /** `get_link(page)`: the authority link's `href`; the other button's
      `href` only when the first lookup raises, not when it reads `None`. */
  function GetLink(p: Page): (r: Option<string>)
    ensures p.authorityHref.Found? ==> r == p.authorityHref.value
  {
    match p.authorityHref
    case Found(h) => h
    case Raises =>
      match p.buttonHref
      case Found(h) => h
      case Raises => None
  }

  lemma LinkChain(p: Page)
    ensures GetLink(p) == Chain([p.authorityHref, p.buttonHref], None)
  {
    var chain := [p.authorityHref, p.buttonHref];
    assert chain[1..] == [p.buttonHref];
    assert chain[1..][1..] == [];
    if p.authorityHref.Raises? {
      assert FirstFound(chain) == 1 + FirstFound(chain[1..]);
      if p.buttonHref.Raises? {
        assert FirstFound(chain[1..]) == 1 + FirstFound(chain[1..][1..]);
      }
    }
  }

  /** The text the review count is read from: the reviews label, and the
      reviews span only when the label gives `None`. */
  function RatingCountText(p: Page): (t: Option<string>)
    ensures p.reviewsLabel.Found? && p.reviewsLabel.value.Some? ==> t == p.reviewsLabel.value
    ensures p.reviewsLabel.Raises? || p.reviewsLabel.value.None? ==> t == OrNone(p.reviewsText)
  {
    var first := match p.reviewsLabel case Found(o) => o case Raises => None;
    if first.None? then OrNone(p.reviewsText) else first
  }

  /** `get_rating_count(page)`: the parsed review count, or `None` when there
      is no text or no digit in it. */
  function GetRatingCount(p: Page): (r: Option<int>)
    ensures r.Some? ==> r.value >= 0
    ensures r.None? <==> RatingCountText(p).None? || !HasDigit(RatingCountText(p).value)
    ensures RatingCountText(p).Some? ==> r == ParseRatingCount(PStr(RatingCountText(p).value))
  {
    match RatingCountText(p)
    case Some(t) => ParseRatingCount(PStr(t))
    case None => None
  }

  /** The reviews span is not read when the label gives a text. */
  lemma RatingCountFallback(p: Page, other: Lookup<string>)
    requires p.reviewsLabel.Found? && p.reviewsLabel.value.Some?
    ensures GetRatingCount(p.(reviewsText := other)) == GetRatingCount(p)
  {
  }

  /** The text (or `None`) of the first price lookup that does not raise. */
  function PriceLookup(p: Page): Option<string>
  {
    match p.priceLabel
    case Found(o) => o
    case Raises =>
      match p.priceText
      case Found(t) => Some(t)
      case Raises => OrNone(p.priceDetail)
  }

  lemma PriceChain(p: Page)
    ensures PriceLookup(p) == Chain([p.priceLabel, Lift(p.priceText), Lift(p.priceDetail)], None)
  {
    var chain := [p.priceLabel, Lift(p.priceText), Lift(p.priceDetail)];
    assert chain[1..] == [chain[1], chain[2]];
    assert chain[1..][1..] == [chain[2]];
    assert chain[1..][1..][1..] == [];
  }

  /** `get_price(page)`: the first lookup that does not raise, passed through
      `parse_price` when it is a non-empty string. A `None` or `""` is
      returned as read, without falling back. */
  function GetPrice(p: Page): (r: Option<string>)
    ensures PriceLookup(p).None? ==> r.None?
    ensures PriceLookup(p) == Some("") ==> r == Some("")
    ensures PriceLookup(p).Some? && PriceLookup(p).value != "" ==>
      r == Some(ParsePrice(PriceLookup(p).value))
  {
    var price := PriceLookup(p);
    if price.Some? && price.value != "" then Some(ParsePrice(price.value)) else price
  }

  /** A label lookup that reads `None` ends the chain with `None`. */
  lemma PriceNoFallback(p: Page)
    requires p.priceLabel == Found(None)
    ensures GetPrice(p) == None
  {
  }

  // ---------------------------------------------------------------------
  // get_lat, get_lon
  // ---------------------------------------------------------------------

  /** The language of `\d+\.\d+`. */
  predicate IsUnsignedDecimal(u: string)
  {
    exists j :: 0 < j < |u| - 1 && u[j] == '.' && AllDigits(u[..j]) && AllDigits(u[j + 1..])
  }

  /** The language of `-?\d+\.\d+`. */
  predicate IsDecimalText(u: string)
  {
    IsUnsignedDecimal(u) || (|u| >= 1 && u[0] == '-' && IsUnsignedDecimal(u[1..]))
  }

  /** The dot of a decimal is its first dot. */
  lemma DecimalDot(v: string)
    requires IsUnsignedDecimal(v)
    ensures var j := IndexOf(v, '.');
      0 < j < |v| - 1 && AllDigits(v[..j]) && AllDigits(v[j + 1..])
  {
    var j :| 0 < j < |v| - 1 && v[j] == '.' && AllDigits(v[..j]) && AllDigits(v[j + 1..]);
    assert forall k :: 0 <= k < j ==> v[k] == v[..j][k];
    assert IndexOf(v, '.') == j;
  }

  /** Python `float(u)` of a decimal text, as an exact value. */
  function FloatOf(u: string): (x: real)
    requires IsDecimalText(u)
    ensures u[0] != '-' ==> x >= 0.0
    ensures u[0] == '-' ==> x <= 0.0
  {
    if u[0] == '-' then
      DecimalDot(u[1..]);
      var v := u[1..];
      var j := IndexOf(v, '.');
      -DecimalValue(v[..j], v[j + 1..])
    else
      DecimalDot(u);
      var j := IndexOf(u, '.');
      DecimalValue(u[..j], u[j + 1..])
  }

  /** `\d+\.\d+` matches exactly `s[a..e]`. */
  predicate IsUnsignedSpan(s: string, a: nat, e: nat)
    requires a <= e <= |s|
  {
    exists b :: && a < b < e - 1 && s[b] == '.'
                && (forall k :: a <= k < b ==> IsDigit(s[k]))
                && (forall k :: b < k < e ==> IsDigit(s[k]))
  }

  /** `-?\d+\.\d+` matches exactly `s[a..e]`. */
  predicate IsDecimalSpan(s: string, a: nat, e: nat)
    requires a <= e <= |s|
  {
    IsUnsignedSpan(s, a, e) || (a < e && s[a] == '-' && IsUnsignedSpan(s, a + 1, e))
  }

  lemma UnsignedSpanText(s: string, a: nat, e: nat)
    requires a <= e <= |s| && IsUnsignedSpan(s, a, e)
    ensures IsUnsignedDecimal(s[a..e])
  {
    var b :| && a < b < e - 1 && s[b] == '.'
             && (forall k :: a <= k < b ==> IsDigit(s[k]))
             && (forall k :: b < k < e ==> IsDigit(s[k]));
    var u := s[a..e];
    assert u[..b - a] == s[a..b];
    assert u[b - a + 1..] == s[b + 1..e];
    DigitsSlice(s, a, b);
    DigitsSlice(s, b + 1, e);
    assert u[b - a] == '.';
  }

  /** A span the pattern matches is text `float` accepts. */
  lemma DecimalSpanText(s: string, a: nat, e: nat)
    requires a <= e <= |s| && IsDecimalSpan(s, a, e)
    ensures IsDecimalText(s[a..e])
  {
    if IsUnsignedSpan(s, a, e) {
      UnsignedSpanText(s, a, e);
    } else {
      UnsignedSpanText(s, a + 1, e);
      assert s[a..e][1..] == s[a + 1..e];
    }
  }

  /** Where the greedy `-?\d+\.\d+` that starts at `k` ends, if it matches
      there. */
  function DecimalEnd(s: string, k: nat): (r: Option<nat>)
    requires k <= |s|
    ensures r.Some? ==> k < r.value <= |s|
  {
    var a := if k < |s| && s[k] == '-' then k + 1 else k;
    var b := DigitsEnd(s, a);
    if a < b && b < |s| && s[b] == '.' then
      var c := DigitsEnd(s, b + 1);
      if b + 1 < c then Some(c) else None
    else None
  }

  /** The scanner's match is a decimal that no digit follows. */
  lemma DecimalEndSound(s: string, k: nat)
    requires k <= |s| && DecimalEnd(s, k).Some?
    ensures IsDecimalSpan(s, k, DecimalEnd(s, k).value)
    ensures DecimalEnd(s, k).value == |s| || !IsDigit(s[DecimalEnd(s, k).value])
  {
    var a := if k < |s| && s[k] == '-' then k + 1 else k;
    var b := DigitsEnd(s, a);
    var c := DigitsEnd(s, b + 1);
    DigitsEndSpec(s, a);
    DigitsEndSpec(s, b + 1);
    assert IsUnsignedSpan(s, a, c);
  }

  /** Every decimal that starts at `k` makes the scanner match there, and the
      scanner ends where the decimal does when no digit follows it. */
  lemma DecimalEndComplete(s: string, k: nat, e: nat)
    requires k <= e <= |s| && IsDecimalSpan(s, k, e)
    ensures DecimalEnd(s, k).Some?
    ensures e == |s| || !IsDigit(s[e]) ==> DecimalEnd(s, k) == Some(e)
  {
    var a := if IsUnsignedSpan(s, k, e) then k else k + 1;
    var b :| && a < b < e - 1 && s[b] == '.'
             && (forall i :: a <= i < b ==> IsDigit(s[i]))
             && (forall i :: b < i < e ==> IsDigit(s[i]));
    assert IsDigit(s[a]);
    DigitsEndReaches(s, a, b);
    DigitsEndReaches(s, b + 1, e);
  }

  /** The two coordinate patterns of the URL: `@(dec),(dec)` and
      `!3d(dec)!4d(dec)`. */
  datatype CoordPattern = AtPair | BangPair

  /** The length of the text before the first group and between the groups. */
  function OpenLen(pat: CoordPattern): nat
  {
    if pat.AtPair? then 1 else 3
  }

  /** The pattern's opening text (`@` or `!3d`) starts at `i`. */
  predicate OpensAt(pat: CoordPattern, s: string, i: nat)
  {
    if pat.AtPair? then i + 1 <= |s| && s[i] == '@'
    else i + 3 <= |s| && s[i] == '!' && s[i + 1] == '3' && s[i + 2] == 'd'
  }

  /** The pattern's middle text (`,` or `!4d`) starts at `b`. */
  predicate MiddleAt(pat: CoordPattern, s: string, b: nat)
  {
    if pat.AtPair? then b + 1 <= |s| && s[b] == ','
    else b + 3 <= |s| && s[b] == '!' && s[b + 1] == '4' && s[b + 2] == 'd'
  }

  /** The bounds of the two groups when the pattern matches at `i`. Each
      decimal is greedy and must be followed by the pattern's next text, so
      the match does not depend on backtracking. */
  function PairAt(pat: CoordPattern, s: string, i: nat): (r: Option<(nat, nat, nat, nat)>)
    requires i <= |s|
    ensures r.Some? ==> i < r.value.0 < r.value.1 < r.value.2 < r.value.3 <= |s|
    ensures r.Some? ==> DecimalEnd(s, r.value.0) == Some(r.value.1) && DecimalEnd(s, r.value.2) == Some(r.value.3)
  {
    var o := OpenLen(pat);
    if !OpensAt(pat, s, i) then None
    else match DecimalEnd(s, i + o)
      case None => None
      case Some(b) =>
        if !MiddleAt(pat, s, b) then None
        else match DecimalEnd(s, b + o)
          case None => None
          case Some(d) => Some((i + o, b, b + o, d))
  }

  /** A match of the pattern in the regular-expression sense: the opening, a
      decimal, the middle text and a decimal, ending at `d`. */
  predicate IsPairMatch(pat: CoordPattern, s: string, i: nat, b: nat, d: nat)
  {
    var o := OpenLen(pat);
    && i + o < b && b + o < d <= |s|
    && OpensAt(pat, s, i) && MiddleAt(pat, s, b)
    && IsDecimalSpan(s, i + o, b) && IsDecimalSpan(s, b + o, d)
  }

  /** What the scanner finds is a match, and its second decimal is the
      longest one there. */
  lemma PairAtSound(pat: CoordPattern, s: string, i: nat)
    requires i <= |s| && PairAt(pat, s, i).Some?
    ensures var (a, b, c, d) := PairAt(pat, s, i).value;
      && IsPairMatch(pat, s, i, b, d) && a == i + OpenLen(pat) && c == b + OpenLen(pat)
      && (d == |s| || !IsDigit(s[d]))
  {
    var (a, b, c, d) := PairAt(pat, s, i).value;
    PairAtParts(pat, s, i);
    assert DecimalEnd(s, a) == Some(b) && DecimalEnd(s, c) == Some(d);
    DecimalEndSound(s, a);
    DecimalEndSound(s, c);
    assert IsDecimalSpan(s, a, b) && IsDecimalSpan(s, c, d);
  }

  /** The pieces the scanner checks, one by one. */
  lemma PairAtParts(pat: CoordPattern, s: string, i: nat)
    requires i <= |s| && PairAt(pat, s, i).Some?
    ensures var (a, b, c, d) := PairAt(pat, s, i).value;
      && a == i + OpenLen(pat) && c == b + OpenLen(pat)
      && OpensAt(pat, s, i) && MiddleAt(pat, s, b)
  {
  }

  /** Wherever a match starts, the scanner matches there. */
  lemma PairAtComplete(pat: CoordPattern, s: string, i: nat, b: nat, d: nat)
    requires IsPairMatch(pat, s, i, b, d)
    ensures PairAt(pat, s, i).Some?
  {
    var o := OpenLen(pat);
    assert s[b] == ',' || s[b] == '!';
    DecimalEndComplete(s, i + o, b);
    assert DecimalEnd(s, i + o) == Some(b);
    DecimalEndComplete(s, b + o, d);
    PairAtFrom(pat, s, i, b);
  }

  /** When the opening, the first decimal and the middle text are there, the
      scanner matches if the second decimal does. */
  lemma PairAtFrom(pat: CoordPattern, s: string, i: nat, b: nat)
    requires i + OpenLen(pat) <= |s| && OpensAt(pat, s, i)
    requires DecimalEnd(s, i + OpenLen(pat)) == Some(b) && MiddleAt(pat, s, b)
    requires b + OpenLen(pat) <= |s| && DecimalEnd(s, b + OpenLen(pat)).Some?
    ensures PairAt(pat, s, i).Some?
  {
  }

  /** The pattern does not match at any position in `[i, p)`. */
  predicate NoPairFrom(pat: CoordPattern, s: string, i: nat, p: nat)
    requires p <= |s|
    decreases p - i
  {
    i >= p || (PairAt(pat, s, i).None? && NoPairFrom(pat, s, i + 1, p))
  }

  /** `re.search(pattern, s)`: the leftmost position where the pattern
      matches, with its groups' bounds. */
  function SearchPair(pat: CoordPattern, s: string, i: nat): (r: Option<(nat, (nat, nat, nat, nat))>)
    requires i <= |s|
    ensures r.Some? ==> i <= r.value.0 <= |s| && PairAt(pat, s, r.value.0) == Some(r.value.1)
    ensures r.Some? ==> NoPairFrom(pat, s, i, r.value.0)
    ensures r.None? ==> NoPairFrom(pat, s, i, |s|)
    decreases |s| - i
  {
    match PairAt(pat, s, i)
    case Some(g) => Some((i, g))
    case None => if i == |s| then None else SearchPair(pat, s, i + 1)
  }

  /** No match of the pattern starts in `[i, p)`. */
  predicate NoPairMatchIn(pat: CoordPattern, s: string, i: nat, p: nat)
    requires p <= |s|
  {
    forall q, b, d :: i <= q < p && q <= b <= d <= |s| ==> !IsPairMatch(pat, s, q, b, d)
  }

  lemma {:induction false} NoPairNoMatch(pat: CoordPattern, s: string, i: nat, p: nat)
    requires i <= p <= |s| && NoPairFrom(pat, s, i, p)
    ensures NoPairMatchIn(pat, s, i, p)
    decreases p - i
  {
    if i < p {
      forall b, d | i <= b <= d <= |s| ensures !IsPairMatch(pat, s, i, b, d) {
        if IsPairMatch(pat, s, i, b, d) {
          PairAtComplete(pat, s, i, b, d);
        }
      }
      NoPairNoMatch(pat, s, i + 1, p);
    }
  }

  /** The search agrees with the regular expression: it finds a match and no
      match starts earlier; when it finds nothing there is no match at all. */
  lemma SearchPairLeftmost(pat: CoordPattern, s: string)
    ensures SearchPair(pat, s, 0).None? ==> NoPairMatchIn(pat, s, 0, |s|)
    ensures SearchPair(pat, s, 0).Some? ==>
      var (q, g) := SearchPair(pat, s, 0).value;
      IsPairMatch(pat, s, q, g.1, g.3) && NoPairMatchIn(pat, s, 0, q)
  {
    var r := SearchPair(pat, s, 0);
    if r.None? {
      NoPairNoMatch(pat, s, 0, |s|);
    } else {
      NoPairNoMatch(pat, s, 0, r.value.0);
      PairAtSound(pat, s, r.value.0);
    }
  }

  /** `float` of a group the scanner found. */
  function GroupValue(s: string, a: nat, b: nat): real
    requires a <= |s| && DecimalEnd(s, a) == Some(b)
  {
    DecimalEndSound(s, a);
    DecimalSpanText(s, a, b);
    FloatOf(s[a..b])
  }

  /** `get_lat(page)`: group 1 of the first `@` match, else group 1 of the
      first `!3d`/`!4d` match. */
  function GetLat(p: Page): Option<real>
  {
    match SearchPair(AtPair, p.url, 0)
    case Some((_, (a, b, _, _))) => Some(GroupValue(p.url, a, b))
    case None =>
      match SearchPair(BangPair, p.url, 0)
      case Some((_, (a, b, _, _))) => Some(GroupValue(p.url, a, b))
      case None => None
  }

  /** `get_lon(page)`: group 2 of the same searches. */
  function GetLon(p: Page): Option<real>
  {
    match SearchPair(AtPair, p.url, 0)
    case Some((_, (_, _, c, d))) => Some(GroupValue(p.url, c, d))
    case None =>
      match SearchPair(BangPair, p.url, 0)
      case Some((_, (_, _, c, d))) => Some(GroupValue(p.url, c, d))
      case None => None
  }

  /** The match the coordinates come from: the first `@` match, or, when the
      URL has none, the first `!3d`/`!4d` match. */
  function CoordMatch(url: string): (r: Option<(CoordPattern, nat, (nat, nat, nat, nat))>)
    ensures r.Some? ==> r.value.1 <= |url| && PairAt(r.value.0, url, r.value.1) == Some(r.value.2)
  {
    match SearchPair(AtPair, url, 0)
    case Some((q, g)) => Some((AtPair, q, g))
    case None =>
      match SearchPair(BangPair, url, 0)
      case Some((q, g)) => Some((BangPair, q, g))
      case None => None
  }

  /** That match is the leftmost match of its pattern, and the `!3d` pattern
      is used only when the URL holds no `@` match at all. */
  lemma CoordMatchSpec(url: string)
    ensures CoordMatch(url).None? <==>
      NoPairMatchIn(AtPair, url, 0, |url|) && NoPairMatchIn(BangPair, url, 0, |url|)
    ensures CoordMatch(url).Some? ==>
      var (pat, q, g) := CoordMatch(url).value;
      && IsPairMatch(pat, url, q, g.1, g.3)
      && NoPairMatchIn(pat, url, 0, q)
      && (pat.BangPair? ==> NoPairMatchIn(AtPair, url, 0, |url|))
  {
    SearchPairLeftmost(AtPair, url);
    SearchPairLeftmost(BangPair, url);
    var r := CoordMatch(url);
    if r.Some? {
      var (pat, q, g) := r.value;
      assert !NoPairMatchIn(pat, url, 0, |url|) by {
        assert IsPairMatch(pat, url, q, g.1, g.3);
      }
    }
  }

  /** Latitude and longitude are groups 1 and 2 of one and the same match:
      either both are found or neither is. */
  lemma CoordinatesSameMatch(p: Page)
    ensures GetLat(p).Some? <==> CoordMatch(p.url).Some?
    ensures GetLon(p).Some? <==> CoordMatch(p.url).Some?
    ensures CoordMatch(p.url).Some? ==>
      var (_, _, (a, b, c, d)) := CoordMatch(p.url).value;
      GetLat(p) == Some(GroupValue(p.url, a, b)) && GetLon(p) == Some(GroupValue(p.url, c, d))
  {
  }

  // ---------------------------------------------------------------------
  // get_stars
  // ---------------------------------------------------------------------

  /** `re.search(r'\d+', t).group()`, or `None` when `t` has no digit. */
  function FirstDigitRun(t: string): (r: Option<string>)
    ensures r.None? <==> !HasDigit(t)
  {
    var p := FirstDigit(t);
    if p == |t| then None else Some(t[p..DigitsEnd(t, p)])
  }

  /** The run is the first maximal run of digits. */
  lemma FirstDigitRunSpec(t: string)
    requires HasDigit(t)
    ensures var r := FirstDigitRun(t).value;
      exists p: nat :: && OccursAt(r, t, p) && r != [] && AllDigits(r)
                  && (forall q :: 0 <= q < p ==> !IsDigit(t[q]))
                  && (p + |r| == |t| || !IsDigit(t[p + |r|]))
  {
    var p := FirstDigit(t);
    DigitsEndSpec(t, p);
    assert DigitsEnd(t, p) == DigitsEnd(t, p + 1);
    var r := t[p..DigitsEnd(t, p)];
    assert FirstDigitRun(t) == Some(r);
    assert AllDigits(r);
    assert OccursAt(r, t, p);
  }

  /** `get_stars(page)`: the digits of the star badge's text; `None` when the
      text is missing (searching `None` raises) or holds no digit. */
  function GetStars(p: Page): (r: Option<string>)
    ensures r.Some? <==> p.starsText.Found? && p.starsText.value.Some? && HasDigit(p.starsText.value.value)
    ensures p.starsText.Found? && p.starsText.value.Some? ==> r == FirstDigitRun(p.starsText.value.value)
  {
    match p.starsText
    case Found(Some(t)) => FirstDigitRun(t)
    case _ => None
  }

  // ---------------------------------------------------------------------
  // get_property
  // ---------------------------------------------------------------------

  /** The columns `get_property` knows how to read. */
  const SupportedColumns: set<string> :=
    {"name", "description", "link", "rating", "rating_count", "latitude", "longitude",
     "phone", "address", "stars", "images", "price", "facilities"}

  /** What `get_property` gives: a value, or the end of the program for a
      column it does not know. */
  datatype Property = Value(v: PyVal) | Unsupported

  function OptInt(o: Option<int>): PyVal
  {
    match o
    case None => PNone
    case Some(i) => PInt(i)
  }

  function OptReal(o: Option<real>): PyVal
  {
    match o
    case None => PNone
    case Some(x) => PReal(x)
  }

  /** `get_property(page, column)`. */
  function GetProperty(p: Page, column: string): (r: Property)
    ensures r.Unsupported? <==> column !in SupportedColumns
  {
    if column == "name" then Value(OptStr(OrNone(p.name)))
    else if column == "description" then Value(PStr(GetDescription(p)))
    else if column == "link" then Value(OptStr(GetLink(p)))
    else if column == "rating" then Value(OptStr(OrNone(p.rating)))
    else if column == "rating_count" then Value(OptInt(GetRatingCount(p)))
    else if column == "latitude" then Value(OptReal(GetLat(p)))
    else if column == "longitude" then Value(OptReal(GetLon(p)))
    else if column == "phone" then Value(OptStr(OrNone(p.phone)))
    else if column == "address" then Value(OptStr(OrNone(p.address)))
    else if column == "stars" then Value(OptStr(GetStars(p)))
    else if column == "images" then
      Value(match p.image case Found(src) => OptStr(src) case Raises => PNone)
    else if column == "price" then Value(OptStr(GetPrice(p)))
    else if column == "facilities" then
      Value(match p.facilities case Found(fs) => PList(StrList(fs)) case Raises => PNone)
    else Unsupported
  }

  /** The supported columns are the table's columns other than its key, its
      category and the card link. */
  lemma SupportedAreTableColumns()
    ensures SupportedColumns == Database.Columns - {"id", "product_type", "card_href"}
  {
  }
}
