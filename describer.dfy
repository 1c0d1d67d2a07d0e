/** The description generator of create_description_with_ai.py: the retry
    delay read from a quota error, the per-row retry loop with its global
    count of quota errors, and the run over the rows that still lack a
    description, which stops once nine quota errors have piled up. The
    language model is an oracle that answers call number `n` with
    `api(n)`. */
module Describer {
  import opened Values
  import opened Text
  import opened Parsers
  import opened Database

  // ---------------------------------------------------------------------
  // extract_retry_delay_from_error
  // ---------------------------------------------------------------------

  const Key: string := "retryDelay"

  /** `retryDelay` starts at position `i`. */
  predicate KeyAt(s: string, i: nat)
  {
    OccursAt(Key, s, i)
  }

  predicate IsQuote(c: char)
  {
    c == '"' || c == '\''
  }

  /** Every character in `[a, b)` is whitespace. */
  predicate SpacesIn(s: string, a: nat, b: nat)
    requires a <= b <= |s|
  {
    forall k :: a <= k < b ==> IsSpace(s[k])
  }

  /** The end of the whitespace run from `i`. */
  function SpacesEnd(s: string, i: nat): (j: nat)
    requires i <= |s|
    ensures i <= j <= |s|
    decreases |s| - i
  {
    if i < |s| && IsSpace(s[i]) then SpacesEnd(s, i + 1) else i
  }

  lemma {:induction false} SpacesEndSpec(s: string, i: nat)
    requires i <= |s|
    ensures SpacesIn(s, i, SpacesEnd(s, i))
    ensures SpacesEnd(s, i) < |s| ==> !IsSpace(s[SpacesEnd(s, i)])
    decreases |s| - i
  {
    if i < |s| && IsSpace(s[i]) {
      SpacesEndSpec(s, i + 1);
    }
  }

  lemma {:induction false} SpacesEndReaches(s: string, a: nat, b: nat)
    requires a <= b < |s| && SpacesIn(s, a, b) && !IsSpace(s[b])
    ensures SpacesEnd(s, a) == b
    decreases b - a
  {
    if a < b {
      SpacesEndReaches(s, a + 1, b);
    }
  }

  /** `["']?`: past a quote, if there is one. */
  function SkipQuote(s: string, i: nat): (j: nat)
    requires i <= |s|
    ensures i <= j <= |s|
  {
    if i < |s| && IsQuote(s[i]) then i + 1 else i
  }

  /** `(\d+(?:\.\d+)?)s` from `a`: the group is `[a, e)`, its integer part
      `[a, d)`, and `s` follows it. */
  predicate NumberSpan(s: string, a: nat, d: nat, e: nat)
  {
    && a < d <= e < |s|
    && (forall k :: a <= k < d ==> IsDigit(s[k]))
    && (d == e || (s[d] == '.' && d + 1 < e && forall k :: d + 1 <= k < e ==> IsDigit(s[k])))
    && s[e] == 's'
  }

  /** The scanner for the number and its `s`. */
  function NumberAt(s: string, a: nat): (r: Option<(nat, nat)>)
    requires a <= |s|
  {
    var d := DigitsEnd(s, a);
    if d == a || d == |s| then None
    else if s[d] == 's' then Some((d, d))
    else if s[d] == '.' then
      var f := DigitsEnd(s, d + 1);
      if f > d + 1 && f < |s| && s[f] == 's' then Some((d, f)) else None
    else None
  }

  lemma NumberAtSound(s: string, a: nat)
    requires a <= |s| && NumberAt(s, a).Some?
    ensures NumberSpan(s, a, NumberAt(s, a).value.0, NumberAt(s, a).value.1)
  {
    DigitsEndSpec(s, a);
    var d := DigitsEnd(s, a);
    if s[d] == '.' {
      DigitsEndSpec(s, d + 1);
    }
  }

  lemma NumberAtComplete(s: string, a: nat, d: nat, e: nat)
    requires a <= |s| && NumberSpan(s, a, d, e)
    ensures NumberAt(s, a) == Some((d, e))
  {
    DigitsEndReaches(s, a, d);
    if d < e {
      DigitsEndReaches(s, d + 1, e);
    }
  }

  /** `["']?\s*` ending at `c`. */
  predicate QuoteThenSpaces(s: string, k: nat, c: nat)
    requires k <= c <= |s|
  {
    SpacesIn(s, k, c) || (k < c && IsQuote(s[k]) && SpacesIn(s, k + 1, c))
  }

  /** `\s*["']?` ending at `a`. */
  predicate SpacesThenQuote(s: string, b: nat, a: nat)
    requires b <= a <= |s|
  {
    SpacesIn(s, b, a) || (b < a && IsQuote(s[a - 1]) && SpacesIn(s, b, a - 1))
  }

  lemma QuoteThenSpacesScan(s: string, k: nat)
    requires k <= |s|
    ensures QuoteThenSpaces(s, k, SpacesEnd(s, SkipQuote(s, k)))
    ensures SpacesEnd(s, SkipQuote(s, k)) < |s| ==> !IsSpace(s[SpacesEnd(s, SkipQuote(s, k))])
  {
    SpacesEndSpec(s, SkipQuote(s, k));
  }

  lemma QuoteThenSpacesUnique(s: string, k: nat, c: nat)
    requires k <= c < |s| && QuoteThenSpaces(s, k, c) && !IsSpace(s[c]) && !IsQuote(s[c])
    ensures SpacesEnd(s, SkipQuote(s, k)) == c
  {
    if SpacesIn(s, k, c) {
      SpacesEndReaches(s, k, c);
    } else {
      SpacesEndReaches(s, k + 1, c);
    }
  }

  lemma SpacesThenQuoteScan(s: string, b: nat)
    requires b <= |s|
    ensures SpacesThenQuote(s, b, SkipQuote(s, SpacesEnd(s, b)))
  {
    SpacesEndSpec(s, b);
  }

  lemma SpacesThenQuoteUnique(s: string, b: nat, a: nat)
    requires b <= a < |s| && SpacesThenQuote(s, b, a) && !IsSpace(s[a]) && !IsQuote(s[a])
    ensures SkipQuote(s, SpacesEnd(s, b)) == a
  {
    if SpacesIn(s, b, a) {
      SpacesEndReaches(s, b, a);
    } else {
      SpacesEndReaches(s, b, a - 1);
    }
  }

  /** A match of `retryDelay["']?\s*:\s*["']?(\d+(?:\.\d+)?)s` at `i`, with
      its colon at `c` and its group at `[a, e)`. */
  predicate IsHint(s: string, i: nat, c: nat, a: nat, d: nat, e: nat)
  {
    && KeyAt(s, i)
    && i + |Key| <= c < a <= |s|
    && s[c] == ':'
    && QuoteThenSpaces(s, i + |Key|, c)
    && SpacesThenQuote(s, c + 1, a)
    && NumberSpan(s, a, d, e)
  }

  /** No match of the first pattern starts before `p`. */
  ghost predicate NoHintBefore(s: string, p: nat)
  {
    forall q: nat, c, a, d, e :: q < p ==> !IsHint(s, q, c, a, d, e)
  }

  /** No match of the first pattern anywhere. */
  ghost predicate NoHint(s: string)
  {
    forall q, c, a, d, e :: !IsHint(s, q, c, a, d, e)
  }

  /** The scanner for the first pattern at `i`: the colon, the group start,
      the integer end and the group end. */
  function HintAt(s: string, i: nat): (r: Option<(nat, nat, nat, nat)>)
  {
    if !KeyAt(s, i) then None
    else
      var c := SpacesEnd(s, SkipQuote(s, i + |Key|));
      if c == |s| || s[c] != ':' then None
      else
        var a := SkipQuote(s, SpacesEnd(s, c + 1));
        match NumberAt(s, a)
        case None => None
        case Some(n) => Some((c, a, n.0, n.1))
  }

  lemma HintAtSound(s: string, i: nat)
    requires HintAt(s, i).Some?
    ensures var (c, a, d, e) := HintAt(s, i).value; IsHint(s, i, c, a, d, e)
  {
    QuoteThenSpacesScan(s, i + |Key|);
    var c := SpacesEnd(s, SkipQuote(s, i + |Key|));
    SpacesThenQuoteScan(s, c + 1);
    NumberAtSound(s, SkipQuote(s, SpacesEnd(s, c + 1)));
  }

  lemma HintAtComplete(s: string, i: nat, c: nat, a: nat, d: nat, e: nat)
    requires IsHint(s, i, c, a, d, e)
    ensures HintAt(s, i) == Some((c, a, d, e))
  {
    QuoteThenSpacesUnique(s, i + |Key|, c);
    SpacesThenQuoteUnique(s, c + 1, a);
    NumberAtComplete(s, a, d, e);
  }

  /** The leftmost match of the first pattern from `i` on. */
  function FindHint(s: string, i: nat): (r: Option<(nat, (nat, nat, nat, nat))>)
    ensures r.Some? ==> i <= r.value.0 && HintAt(s, r.value.0) == Some(r.value.1)
    decreases |s| + 1 - i
  {
    if i > |s| then None
    else if HintAt(s, i).Some? then Some((i, HintAt(s, i).value))
    else FindHint(s, i + 1)
  }

  lemma {:induction false} FindHintNone(s: string, i: nat, p: nat)
    requires i <= p && FindHint(s, i).None?
    ensures HintAt(s, p).None?
    decreases p - i
  {
    if p > |s| {
      assert !KeyAt(s, p);
    } else if i < p {
      FindHintNone(s, i + 1, p);
    }
  }

  lemma {:induction false} FindHintFirst(s: string, i: nat, q: nat)
    requires FindHint(s, i).Some? && i <= q < FindHint(s, i).value.0
    ensures HintAt(s, q).None?
    decreases q - i
  {
    if i < q {
      FindHintFirst(s, i + 1, q);
    }
  }

  /** The second pattern, `"retryDelay"\s*:\s*"(\d+(?:\.\d+)?)s"`, at `i`. */
  function QuotedHintAt(s: string, i: nat): (r: Option<(nat, nat, nat, nat)>)
  {
    if !(i < |s| && s[i] == '"' && KeyAt(s, i + 1)) then None
    else
      var k := i + 1 + |Key|;
      if k == |s| || s[k] != '"' then None
      else
        var c := SpacesEnd(s, k + 1);
        if c == |s| || s[c] != ':' then None
        else
          var b := SpacesEnd(s, c + 1);
          if b == |s| || s[b] != '"' then None
          else
            match NumberAt(s, b + 1)
            case None => None
            case Some(n) => if n.1 + 1 < |s| && s[n.1 + 1] == '"' then Some((c, b + 1, n.0, n.1)) else None
  }

  function FindQuotedHint(s: string, i: nat): (r: Option<(nat, (nat, nat, nat, nat))>)
    ensures r.Some? ==> i <= r.value.0 && QuotedHintAt(s, r.value.0) == Some(r.value.1)
    decreases |s| + 1 - i
  {
    if i > |s| then None
    else if QuotedHintAt(s, i).Some? then Some((i, QuotedHintAt(s, i).value))
    else FindQuotedHint(s, i + 1)
  }

  /** A match of the second pattern at `i` is a match of the first at
      `i + 1`, with the same group. */
  lemma QuotedIsHint(s: string, i: nat)
    requires QuotedHintAt(s, i).Some?
    ensures HintAt(s, i + 1) == QuotedHintAt(s, i)
  {
  }

  /** The value of the group `[a, e)` with integer part `[a, d)`, as
      `float()` reads it (exactly). */
  function GroupValue(s: string, a: nat, d: nat, e: nat): (x: real)
    requires NumberSpan(s, a, d, e)
    ensures x >= 0.0
  {
    DigitsSlice(s, a, d);
    if d == e then Number(s[a..d]) as real
    else
      DigitsSlice(s, d + 1, e);
      DecimalValue(s[a..d], s[d + 1..e])
  }

  /** The delay the source falls back to when the error holds no hint. */
  const DefaultDelay: real := 10.0

  /** `extract_retry_delay_from_error` as written: the first pattern, then
      the second, then 10 seconds. */
  function ExtractRetryDelay(error: string): (r: real)
    ensures r >= 0.0
  {
    match FindHint(error, 0)
    case Some((_, (c, a, d, e))) =>
      HintAtSound(error, FindHint(error, 0).value.0);
      GroupValue(error, a, d, e)
    case None =>
      match FindQuotedHint(error, 0)
      case Some((i, (c, a, d, e))) =>
        QuotedIsHint(error, i);
        HintAtSound(error, i + 1);
        GroupValue(error, a, d, e)
      case None => DefaultDelay
  }

  /** The second pattern never decides the result: whenever it matches, so
      does the first. */
  lemma QuotedPatternIsDead(error: string)
    ensures FindQuotedHint(error, 0).Some? ==> FindHint(error, 0).Some?
  {
    if FindQuotedHint(error, 0).Some? {
      var i := FindQuotedHint(error, 0).value.0;
      QuotedIsHint(error, i);
      if FindHint(error, 0).None? {
        FindHintNone(error, 0, i + 1);
      }
    }
  }

  /** Without a hint the delay is 10 seconds. */
  lemma RetryDelayDefault(error: string)
    requires NoHint(error)
    ensures ExtractRetryDelay(error) == DefaultDelay
  {
    QuotedPatternIsDead(error);
    if FindHint(error, 0).Some? {
      var (i0, (c0, a0, d0, e0)) := FindHint(error, 0).value;
      HintAtSound(error, i0);
      assert false;
    }
  }

  /** The delay is the group of the first hint in the error. */
  lemma RetryDelayFirst(error: string, i: nat, c: nat, a: nat, d: nat, e: nat)
    requires IsHint(error, i, c, a, d, e) && NoHintBefore(error, i)
    ensures ExtractRetryDelay(error) == GroupValue(error, a, d, e)
  {
    HintAtComplete(error, i, c, a, d, e);
    if FindHint(error, 0).None? {
      FindHintNone(error, 0, i);
      assert false;
    }
    var (i0, (c0, a0, d0, e0)) := FindHint(error, 0).value;
    HintAtSound(error, i0);
    if i0 < i {
      assert false;
    } else if i < i0 {
      FindHintFirst(error, 0, i);
      assert false;
    }
  }

  /** A hint as the generator's error text quotes it. */
  const QuotedExample: string := "{'retryDelay': '31s'}"

  lemma QuotedExampleFirst()
    ensures NoHintBefore(QuotedExample, 2)
  {
    var s := QuotedExample;
    assert Key[0] == 'r';
    assert !KeyAt(s, 0) by {
      assert s[0..10][0] == '{';
    }
    assert !KeyAt(s, 1) by {
      assert s[1..11][0] == '\'';
    }
  }

  lemma QuotedExampleHint()
    ensures IsHint(QuotedExample, 2, 13, 16, 18, 18)
  {
    var s := QuotedExample;
    assert s[2..12] == Key;
    assert SpacesIn(s, 14, 15);
  }

  lemma QuotedExampleGroup()
    requires NumberSpan(QuotedExample, 16, 18, 18)
    ensures GroupValue(QuotedExample, 16, 18, 18) == 31.0
  {
    assert QuotedExample[16..18] == "31";
    assert Number("3") == 3;
  }

  /** The delay of the quoted hint is its number of seconds. */
  lemma RetryDelayExample()
    ensures ExtractRetryDelay(QuotedExample) == 31.0
  {
    QuotedExampleHint();
    QuotedExampleFirst();
    RetryDelayFirst(QuotedExample, 2, 13, 16, 18, 18);
    QuotedExampleGroup();
  }

  /** `extract_retry_delay_from_error(e) + 1`: the sleep after a quota
      error. */
  function SleepAfter(error: string): (r: real)
    ensures r >= 1.0
  {
    ExtractRetryDelay(error) + 1.0
  }

  /** Without a hint the sleep is 11 seconds. */
  lemma DefaultSleep(error: string)
    requires NoHint(error)
    ensures SleepAfter(error) == 11.0
  {
    RetryDelayDefault(error);
  }

  // ---------------------------------------------------------------------
  // process_registry
  // ---------------------------------------------------------------------

  /** One answer of the description generator: the response text (which
      may be `None`), or the text of the exception it raised. */
  datatype ApiOutcome = Generated(text: Option<string>) | Failed(error: string)

  /** The generator: call number `n` (counted over the whole run) for the
      card link `href`. */
  type Api = (nat, PyVal) -> ApiOutcome

  const QuotaMarker: string := "RESOURCE_EXHAUSTED"

  /** `'RESOURCE_EXHAUSTED' in error_text`. */
  predicate IsQuotaError(error: string)
  {
    exists p: nat | p <= |error| :: OccursAt(QuotaMarker, error, p)
  }

  /** The module state the loops change: the global quota-error counter,
      the number of generator calls so far, the quota errors the script
      slept after (in order), and the table. */
  datatype DescState = DescState(exhausted: nat, calls: nat, sleptAfter: seq<string>, table: Table)

  /** The lengths of the sleeps requested, one per quota error slept after. */
  function SleepLengths(errors: seq<string>): (r: seq<real>)
    ensures |r| == |errors|
    ensures forall k :: 0 <= k < |r| ==> r[k] == SleepAfter(errors[k]) && r[k] >= 1.0
  {
    seq(|errors|, k requires 0 <= k < |errors| => SleepAfter(errors[k]))
  }

  /** The data `db.update` receives on success. */
  function DescriptionData(text: Option<string>): (d: Dict)
    ensures DistinctKeys(d) && Keys(d) == ["description"]
  {
    [("description", match text case Some(t) => PStr(t) case None => PNone)]
  }

  /** The `except` branch: one more call, and for a quota error one more
      on the counter and a sleep of `SleepAfter(error)` seconds. */
  function AfterFailure(s: DescState, error: string): DescState
  {
    if IsQuotaError(error) then
      s.(exhausted := s.exhausted + 1, calls := s.calls + 1, sleptAfter := s.sleptAfter + [error])
    else s.(calls := s.calls + 1)
  }

  /** The `while` loop of `process_registry` with `left` attempts to go. */
  function Attempts(api: Api, s: DescState, regId: int, href: PyVal, left: nat): DescState
    decreases left
  {
    if left == 0 then s
    else match api(s.calls, href)
      case Generated(text) =>
        s.(exhausted := 0, calls := s.calls + 1, table := UpdateResult(s.table, regId, DescriptionData(text)).1)
      case Failed(error) => Attempts(api, AfterFailure(s, error), regId, href, left - 1)
  }

  /** `left` calls from call number `from` on all fail. */
  ghost predicate AllFail(api: Api, from: nat, href: PyVal, left: nat)
  {
    forall j: nat :: from <= j < from + left ==> api(j, href).Failed?
  }

  /** The number of quota errors among `left` calls from call number `from`. */
  function QuotaErrors(api: Api, from: nat, href: PyVal, left: nat): nat
    decreases left
  {
    if left == 0 then 0
    else
      var o := api(from, href);
      (if o.Failed? && IsQuotaError(o.error) then 1 else 0) + QuotaErrors(api, from + 1, href, left - 1)
  }

  /** The loop makes between one and `left` calls (none when `left` is 0),
      and the sleeps it adds each follow a quota error. */
  lemma {:induction false} AttemptsBounds(api: Api, s: DescState, regId: int, href: PyVal, left: nat)
    ensures var r := Attempts(api, s, regId, href, left);
      && s.calls + (if left == 0 then 0 else 1) <= r.calls <= s.calls + left
      && s.sleptAfter <= r.sleptAfter
      && forall k :: |s.sleptAfter| <= k < |r.sleptAfter| ==> IsQuotaError(r.sleptAfter[k])
    decreases left
  {
    if left > 0 && api(s.calls, href).Failed? {
      var s' := AfterFailure(s, api(s.calls, href).error);
      AttemptsBounds(api, s', regId, href, left - 1);
    }
  }

  /** When every call fails, each failure costs one attempt, the counter
      rises by the number of quota errors and only by it, and the table is
      untouched. */
  lemma {:induction false} AttemptsAllFail(api: Api, s: DescState, regId: int, href: PyVal, left: nat)
    requires AllFail(api, s.calls, href, left)
    ensures var r := Attempts(api, s, regId, href, left);
      && r.calls == s.calls + left
      && r.exhausted == s.exhausted + QuotaErrors(api, s.calls, href, left)
      && |r.sleptAfter| == |s.sleptAfter| + QuotaErrors(api, s.calls, href, left)
      && r.table == s.table
    decreases left
  {
    if left > 0 {
      var s' := AfterFailure(s, api(s.calls, href).error);
      assert AllFail(api, s'.calls, href, left - 1) by {
        forall j: nat | s'.calls <= j < s'.calls + (left - 1) ensures api(j, href).Failed? {
          assert s.calls <= j < s.calls + left;
        }
      }
      AttemptsAllFail(api, s', regId, href, left - 1);
    }
  }

  /** When the first `k` calls fail and call `k` succeeds, the loop stops
      after `k + 1` calls, with the counter back at 0 and the table changed
      by exactly one `update` of the description of row `regId`. */
  lemma {:induction false} AttemptsFirstSuccess(api: Api, s: DescState, regId: int, href: PyVal, left: nat, k: nat)
    requires k < left && AllFail(api, s.calls, href, k) && api(s.calls + k, href).Generated?
    ensures var r := Attempts(api, s, regId, href, left);
      && r.calls == s.calls + k + 1
      && r.exhausted == 0
      && r.table == UpdateResult(s.table, regId, DescriptionData(api(s.calls + k, href).text)).1
    decreases k
  {
    if k > 0 {
      var s' := AfterFailure(s, api(s.calls, href).error);
      assert AllFail(api, s'.calls, href, k - 1) by {
        forall j: nat | s'.calls <= j < s'.calls + (k - 1) ensures api(j, href).Failed? {
          assert s.calls <= j < s.calls + k;
        }
      }
      AttemptsFirstSuccess(api, s', regId, href, left - 1, k - 1);
    }
  }

  /** Errors that are not quota errors leave the counter as it was. */
  lemma {:induction false} OtherErrorsKeepCounter(api: Api, from: nat, href: PyVal, left: nat)
    requires forall j: nat :: from <= j < from + left ==> api(j, href).Failed? && !IsQuotaError(api(j, href).error)
    ensures QuotaErrors(api, from, href, left) == 0
    decreases left
  {
    if left > 0 {
      OtherErrorsKeepCounter(api, from + 1, href, left - 1);
    }
  }

  // ---------------------------------------------------------------------
  // main
  // ---------------------------------------------------------------------

  /** The counter value at which `main` gives up. */
  const QuotaLimit: nat := 9

  /** `process_registry`'s default number of attempts. */
  const MaxRetries: nat := 3

  /** The `for registry in data` loop from row `i` on. */
  function RowsFrom(api: Api, s: DescState, rows: seq<Row>, i: nat): DescState
    decreases |rows| - i
  {
    if i >= |rows| || s.exhausted >= QuotaLimit then s
    else RowsFrom(api, Attempts(api, s, rows[i].id, Column(rows[i], "card_href"), MaxRetries), rows, i + 1)
  }

  /** `main`: the rows without a description, fetched once, then the row
      loop. */
  function Run(api: Api, s: DescState): DescState
  {
    var rows := UndescribedQuery(s.table);
    if |rows| == 0 then s else RowsFrom(api, s, rows, 0)
  }

  /** With no row to describe, `main` calls nothing and changes nothing. */
  lemma NoRowsNoCalls(api: Api, s: DescState)
    requires forall r :: r in s.table.rows ==> !Undescribed(r)
    ensures Run(api, s) == s
  {
    if |UndescribedQuery(s.table)| > 0 {
      HeadIsMember(UndescribedQuery(s.table));
      assert false;
    }
  }

  /** Each row costs at most three calls. */
  lemma {:induction false} RowsCallBound(api: Api, s: DescState, rows: seq<Row>, i: nat)
    requires i <= |rows|
    ensures s.calls <= RowsFrom(api, s, rows, i).calls <= s.calls + MaxRetries * (|rows| - i)
    decreases |rows| - i
  {
    if i < |rows| && s.exhausted < QuotaLimit {
      var s' := Attempts(api, s, rows[i].id, Column(rows[i], "card_href"), MaxRetries);
      AttemptsBounds(api, s, rows[i].id, Column(rows[i], "card_href"), MaxRetries);
      RowsCallBound(api, s', rows, i + 1);
    }
  }

  /** Every call from call number `from` on raises a quota error. */
  ghost predicate QuotaFrom(api: Api, from: nat)
  {
    forall j: nat, h :: from <= j ==> api(j, h).Failed? && IsQuotaError(api(j, h).error)
  }

  /** Under a quota error on every call, one row costs three calls and
      three counts. */
  lemma QuotaRow(api: Api, s: DescState, regId: int, href: PyVal)
    requires QuotaFrom(api, s.calls)
    ensures var r := Attempts(api, s, regId, href, MaxRetries);
      r.calls == s.calls + 3 && r.exhausted == s.exhausted + 3 && r.table == s.table
  {
    AttemptsAllFail(api, s, regId, href, MaxRetries);
    var n := s.calls;
    assert QuotaErrors(api, n + 3, href, 0) == 0;
    assert QuotaErrors(api, n + 2, href, 1) == 1;
    assert QuotaErrors(api, n + 1, href, 2) == 2;
  }

  /** Under a quota error on every call, a row started below the limit adds
      three to the counter and to the calls. */
  lemma QuotaStep(api: Api, s: DescState, rows: seq<Row>, i: nat) returns (s': DescState)
    requires QuotaFrom(api, s.calls) && i < |rows| && s.exhausted < QuotaLimit
    ensures RowsFrom(api, s, rows, i) == RowsFrom(api, s', rows, i + 1)
    ensures s'.calls == s.calls + 3 && s'.exhausted == s.exhausted + 3 && s'.table == s.table
    ensures QuotaFrom(api, s'.calls)
  {
    s' := Attempts(api, s, rows[i].id, Column(rows[i], "card_href"), MaxRetries);
    QuotaRow(api, s, rows[i].id, Column(rows[i], "card_href"));
  }

  /** How many of `n` rows a run starting at counter `x` begins when every
      call raises a quota error. */
  function QuotaRowsRun(x: nat, n: nat): nat
    decreases n
  {
    if n == 0 || x >= QuotaLimit then 0 else 1 + QuotaRowsRun(x + 3, n - 1)
  }

  /** Under a quota error on every call, each row begun costs three calls
      and three counts, and the table is untouched. */
  lemma {:induction false} QuotaRows(api: Api, s: DescState, rows: seq<Row>, i: nat)
    requires QuotaFrom(api, s.calls) && i <= |rows|
    ensures var r := RowsFrom(api, s, rows, i); var k := QuotaRowsRun(s.exhausted, |rows| - i);
      r.calls == s.calls + 3 * k && r.exhausted == s.exhausted + 3 * k && r.table == s.table
    decreases |rows| - i
  {
    if i < |rows| && s.exhausted < QuotaLimit {
      var s' := QuotaStep(api, s, rows, i);
      QuotaRows(api, s', rows, i + 1);
    }
  }

  /** From a fresh counter and at least three rows, three rows are begun. */
  lemma ThreeRowsBegun(n: nat)
    requires n >= 3
    ensures QuotaRowsRun(0, n) == 3
  {
    assert QuotaRowsRun(9, n - 3) == 0;
    assert QuotaRowsRun(6, n - 2) == 1;
    assert QuotaRowsRun(3, n - 1) == 2;
  }

  /** From a fresh counter, with every call a quota error and at least three
      rows, the run makes exactly nine calls, then stops before the next
      row. */
  lemma NineCallsThenStop(api: Api, s: DescState, rows: seq<Row>)
    requires s.exhausted == 0 && QuotaFrom(api, s.calls) && |rows| >= 3
    ensures RowsFrom(api, s, rows, 0).calls == s.calls + 9
    ensures RowsFrom(api, s, rows, 0).exhausted == QuotaLimit
    ensures RowsFrom(api, s, rows, 0).table == s.table
  {
    QuotaRows(api, s, rows, 0);
    ThreeRowsBegun(|rows|);
  }

  // ---------------------------------------------------------------------
  // The script's state as an object
  // ---------------------------------------------------------------------

  /** The module-level state of the script: the database manager, the
      generator, the `RESOURCE_EXHAUSTED` global, the calls made so far and
      the quota errors slept after. */
  class Describer {
    const db: DatabaseManager
    const api: Api
    var exhausted: nat
    var calls: nat
    var sleptAfter: seq<string>

    /** A fresh process with the counter at 0. */
    constructor (db: DatabaseManager, api: Api)
      requires db.Valid()
      ensures Valid() && this.db == db && this.api == api
      ensures State() == DescState(0, 0, [], db.table)
    {
      this.db := db;
      this.api := api;
      exhausted := 0;
      calls := 0;
      sleptAfter := [];
    }

    predicate Valid()
      reads this, db
    {
      db.Valid()
    }

    function State(): DescState
      reads this, db
    {
      DescState(exhausted, calls, sleptAfter, db.table)
    }

    /** `process_registry(reg_id, card_href, max_retries)`. */
    method ProcessRegistry(regId: int, href: PyVal, maxRetries: nat)
      requires Valid()
      modifies this, db
      ensures Valid()
      ensures State() == Attempts(api, old(State()), regId, href, maxRetries)
    {
      var attempts := 0;
      while attempts < maxRetries
        invariant attempts <= maxRetries && Valid()
        invariant Attempts(api, State(), regId, href, maxRetries - attempts) == Attempts(api, old(State()), regId, href, maxRetries)
        decreases maxRetries - attempts
      {
        var outcome := api(calls, href);
        calls := calls + 1;
        match outcome
        case Generated(text) =>
          var _ := db.Update(regId, DescriptionData(text));
          exhausted := 0;
          return;
        case Failed(error) =>
          if IsQuotaError(error) {
            exhausted := exhausted + 1;
            sleptAfter := sleptAfter + [error];
          }
          attempts := attempts + 1;
      }
    }

    /** `main()`. */
    method DescribeAll()
      requires Valid()
      modifies this, db
      ensures Valid()
      ensures State() == Run(api, old(State()))
    {
      var rows := db.GetUndescribed();
      if |rows| == 0 {
        return;
      }
      for i := 0 to |rows|
        invariant Valid()
        invariant RowsFrom(api, State(), rows, i) == Run(api, old(State()))
      {
        if exhausted >= QuotaLimit {
          return;
        }
        ProcessRegistry(rows[i].id, Column(rows[i], "card_href"), MaxRetries);
      }
    }
  }
}
