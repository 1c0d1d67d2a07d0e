/** The search-and-store pipeline of scrapper_google_business.py: the older
    review-count parser, the mapping of the extracted panel to a result dict
    and of that to the row `db_data`, the scroll loop that waits for the
    result feed to stop growing, the choice of the cards to open, and the
    card loop that stores a card unless a row with the same exact key is
    already there. The browser and the language model are inputs. */
module Scraper {
  import opened Values
  import opened Text
  import opened Parsers
  import opened Database
  import Getters

  // ---------------------------------------------------------------------
  // parse_rating_count (the older copy)
  // ---------------------------------------------------------------------

  /** The characters the older parser deletes first. */
  predicate IsNoise(c: char)
  {
    c == '(' || c == ')' || c == ',' || c == '.' || c == ' '
  }

  /** `re.sub(r"[\(\),\. ]", "", s)`. */
  function Clean(s: string): (r: string)
    ensures |r| <= |s|
  {
    if s == [] then []
    else if IsNoise(s[0]) then Clean(s[1..]) else [s[0]] + Clean(s[1..])
  }

  /** Cleaning leaves no noise and adds no character. */
  lemma {:induction false} CleanChars(s: string)
    ensures forall i :: 0 <= i < |Clean(s)| ==> !IsNoise(Clean(s)[i]) && Clean(s)[i] in s
  {
    if s != [] {
      CleanChars(s[1..]);
    }
  }

  /** Cleaning keeps every other character, in order. */
  lemma {:induction false} CleanAppend(a: string, b: string)
    ensures Clean(a + b) == Clean(a) + Clean(b)
  {
    if a == [] {
      assert a + b == b;
    } else {
      assert (a + b)[1..] == a[1..] + b;
      CleanAppend(a[1..], b);
    }
  }

  /** A text without noise is left as it is. */
  lemma {:induction false} CleanQuiet(s: string)
    requires forall i :: 0 <= i < |s| ==> !IsNoise(s[i])
    ensures Clean(s) == s
  {
    if s != [] {
      CleanQuiet(s[1..]);
    }
  }

  /** Cleaning twice is cleaning once. */
  lemma CleanIdempotent(s: string)
    ensures Clean(Clean(s)) == Clean(s)
  {
    CleanChars(s);
    CleanQuiet(Clean(s));
  }

  /** The string branch of the older `parse_rating_count`. */
  function LegacyCountText(s: string): (r: Option<int>)
    ensures r.Some? ==> HasDigit(s)
  {
    var u := Clean(s);
    var l := DigitsEnd(u, 0);
    CleanChars(s);
    if 'k' in u && l > 0 then
      DigitsEndSpec(u, 0);
      assert IsDigit(u[0]) && u[0] in s;
      Some(Number(u[..l]) * 1000)
    else
      var r := PyIntText(u);
      if r.Some? then
        var i :| 0 <= i < |u| && IsDigit(u[i]);
        assert u[i] in s;
        r
      else r
  }

  /** The older `parse_rating_count(value)`: noise removed, then the `k`
      rule, then `int()`. A bool is an int in Python and comes back as 0 or
      1. */
  function LegacyParseRatingCount(v: PyVal): (r: Option<int>)
    ensures v.PInt? ==> r == Some(v.i)
    ensures v.PBool? ==> r == Some(if v.b then 1 else 0)
    ensures !v.PInt? && !v.PBool? && !v.PStr? ==> r == None
    ensures v.PStr? && r.Some? ==> HasDigit(v.s)
  {
    match v
    case PInt(i) => Some(i)
    case PBool(b) => Some(if b then 1 else 0)
    case PStr(s) => LegacyCountText(s)
    case _ => None
  }

  /** The older parser reads a text exactly as it reads the text with its
      noise removed. */
  lemma LegacyIgnoresNoise(s: string)
    ensures LegacyParseRatingCount(PStr(s)) == LegacyParseRatingCount(PStr(Clean(s)))
  {
    CleanIdempotent(s);
  }

  /** The `k` rule of the older parser, on the cleaned text. */
  lemma LegacyKRule(s: string)
    requires var u := Clean(s); 'k' in u && u != [] && IsDigit(u[0])
    ensures var u := Clean(s); exists n ::
      && 0 < n <= |u| && AllDigits(u[..n]) && (n == |u| || !IsDigit(u[n]))
      && LegacyParseRatingCount(PStr(s)) == Some(Number(u[..n]) * 1000)
  {
    var u := Clean(s);
    DigitsEndSpec(u, 0);
    var n := DigitsEnd(u, 0);
    assert AllDigits(u[..n]);
  }

  /** Without the `k` rule, the result is `int()` of the cleaned text. */
  lemma LegacyIntRule(s: string)
    requires var u := Clean(s); !('k' in u && u != [] && IsDigit(u[0]))
    ensures LegacyParseRatingCount(PStr(s)) == PyIntText(Clean(s))
  {
    var u := Clean(s);
    assert DigitsEnd(u, 0) == 0 || 'k' !in u;
  }

  lemma NumberExamples()
    ensures Number("1234") == 1234 && Number("12") == 12 && Number("12345") == 12345
  {
    assert "1234"[..3] == "123" && "123"[..2] == "12" && "12"[..1] == "1" && "1"[..0] == "";
    assert "12345"[..4] == "1234";
  }

  /** A text of plain digits reads as its number. */
  lemma PyIntDigits(ds: string)
    requires ds != [] && AllDigits(ds)
    ensures PyIntText(ds) == Some(Number(ds) as int)
  {
    assert IsDigit(ds[0]) && IsDigit(ds[|ds| - 1]);
    StripNoSpace(ds);
    var t := StripSpace(ds);
    assert !(t[0] == '+' || t[0] == '-');
    assert t[0..] == ds;
    assert IsIntBody(ds);
    DigitsOnlyDigits(ds);
  }

  lemma {:induction false} DigitsOnlyDigits(ds: string)
    requires AllDigits(ds)
    ensures DigitsOnly(ds) == ds
  {
    if ds != [] {
      DigitsOnlyDigits(ds[1..]);
    }
  }

  /** Brackets, commas and dots go first, so `(1,234)` is 1234 and `1.2k` is
      12000, where the newer parser reads `1.2k` as 1000. */
  lemma LegacyExamples()
    ensures LegacyParseRatingCount(PStr("(1,234)")) == Some(1234)
    ensures LegacyParseRatingCount(PStr("1.2k")) == Some(12000)
  {
    LegacyBracketed();
    LegacyThousands();
  }

  lemma LegacyBracketed()
    ensures LegacyCountText("(1,234)") == Some(1234)
  {
    LegacyBracketedInt();
    IntExample();
  }

  lemma LegacyBracketedInt()
    ensures LegacyCountText("(1,234)") == PyIntText("1234")
  {
    CleanBracketed();
    LegacyWithoutK("(1,234)");
  }

  lemma IntExample()
    ensures PyIntText("1234") == Some(1234)
  {
    PyIntDigits("1234");
    NumberExamples();
  }

  /** Without a `k` the older parser is `int()` of the cleaned text. */
  lemma LegacyWithoutK(s: string)
    requires 'k' !in Clean(s)
    ensures LegacyCountText(s) == PyIntText(Clean(s))
  {
  }

  /** Cleaning reads one character at a time. */
  lemma CleanCons(c: char, rest: string)
    ensures Clean([c] + rest) == (if IsNoise(c) then [] else [c]) + Clean(rest)
  {
    assert ([c] + rest)[1..] == rest;
  }

  lemma CleanBracketed()
    ensures Clean("(1,234)") == "1234"
  {
    assert Clean(")") == "";
    assert Clean("4)") == "4";
    assert Clean("34)") == "34";
    assert Clean("234)") == "234";
    assert Clean(",234)") == "234";
    assert Clean("1,234)") == "1234";
  }

  lemma LegacyThousands()
    ensures LegacyCountText("1.2k") == Some(12000)
  {
    assert Clean("k") == "k";
    assert Clean("2k") == "2k";
    assert Clean(".2k") == "2k";
    assert Clean("1.2k") == "12k";
    assert DigitsEnd("12k", 0) == 2;
    assert "12k"[..2] == "12";
    NumberExamples();
  }

  /** Long digit runs are kept whole by the older parser, while the newer one
      caps the leading group at three digits. */
  lemma LegacyKeepsLongRuns()
    ensures LegacyParseRatingCount(PStr("12345")) == Some(12345)
    ensures ParseRatingCount(PStr("12345")) == Some(123)
  {
    CleanQuiet("12345");
    assert 'k' !in "12345";
    PyIntDigits("12345");
    NumberExamples();
    RatingCountUngrouped();
  }

  /** Unlike the newer one, the older parser can give a negative count. */
  lemma LegacyNegative()
    ensures LegacyParseRatingCount(PStr("-5")) == Some(-5)
  {
    CleanQuiet("-5");
    assert 'k' !in "-5";
    assert StripSpace("-5") == "-5";
    assert "-5"[1..] == "5";
    assert DigitsOnly("5") == "5";
    assert "5"[..0] == "";
  }

  // ---------------------------------------------------------------------
  // Python float() of the rating
  // ---------------------------------------------------------------------

  /** Python `float(s)` for a `str` argument in plain decimal notation
      (`[+-]digits[.digits]`, either side of the dot may be empty but not
      both, surrounding whitespace ignored); `None` stands for the
      ValueError. */
  function PyFloatText(s: string): (r: Option<real>)
    ensures r.Some? ==> HasDigit(s)
  {
    var t := StripSpace(s);
    var r := FloatBody(t);
    if r.Some? then
      var i :| 0 <= i < |t| && IsDigit(t[i]);
      assert t[i] in s;
      r
    else r
  }

  /** `float()` of a text without surrounding whitespace. */
  function FloatBody(t: string): (r: Option<real>)
    ensures r.Some? ==> HasDigit(t)
  {
    var k := if t != [] && (t[0] == '+' || t[0] == '-') then 1 else 0;
    var b := t[k..];
    var j := IndexOf(b, '.');
    var w := b[..j];
    var f := if j < |b| then b[j + 1..] else [];
    if AllDigits(w) && AllDigits(f) && |w| + |f| > 0 then
      var q := if |w| > 0 then k else k + j + 1;
      assert IsDigit(t[q]) by {
        if |w| > 0 {
          assert t[q] == w[0];
        } else {
          assert t[q] == f[0];
        }
      }
      var x := DecimalValue(w, f);
      Some(if k == 1 && t[0] == '-' then -x else x)
    else None
  }

  /** Text without surrounding whitespace is its own strip. */
  lemma StripNoSpace(s: string)
    requires s != [] && !IsSpace(s[0]) && !IsSpace(s[|s| - 1])
    ensures StripSpace(s) == s
  {
  }

  /** On the decimal texts of the coordinate parser both readings agree. */
  lemma FloatTextAgrees(u: string)
    requires Getters.IsDecimalText(u)
    ensures PyFloatText(u) == Some(Getters.FloatOf(u))
  {
    var k := if u[0] == '-' then 1 else 0;
    var v := u[k..];
    Getters.DecimalDot(v);
    var j := IndexOf(v, '.');
    assert IsDigit(v[|v| - 1]) by {
      assert v[|v| - 1] == v[j + 1..][|v| - j - 2];
    }
    assert u[|u| - 1] == v[|v| - 1];
    assert IsDigit(v[0]) by {
      assert v[0] == v[..j][0];
    }
    assert !IsSpace(u[0]) by {
      if k == 0 {
        assert u[0] == v[0];
      }
    }
    StripNoSpace(u);
    FloatBodyUnsigned(u, k);
  }

  lemma FloatBodyUnsigned(u: string, k: nat)
    requires k <= 1 && k < |u|
    requires k == 1 <==> u[0] == '-'
    requires Getters.IsUnsignedDecimal(u[k..])
    ensures FloatBody(u) == Some(Getters.FloatOf(u))
  {
    var v := u[k..];
    Getters.DecimalDot(v);
    var j := IndexOf(v, '.');
    assert IsDigit(v[0]) by {
      assert v[0] == v[..j][0];
    }
    assert u[0] != '+';
    assert (if u != [] && (u[0] == '+' || u[0] == '-') then 1 else 0) == k;
    var x := DecimalValue(v[..j], v[j + 1..]);
    assert FloatBody(u) == Some(if k == 1 then -x else x);
    if k == 1 {
      assert Getters.FloatOf(u) == -x;
    } else {
      assert Getters.FloatOf(u) == x;
    }
  }

  /** `float(v or 0)`: a falsy value reads as 0, a number as itself, a text
      by `float()`; `None` stands for the exception a non-empty list or a
      malformed text raises. */
  function FloatOrZero(v: PyVal): (r: Option<real>)
    ensures !Truthy(v) ==> r == Some(0.0)
    ensures v.PInt? ==> r == Some(v.i as real)
    ensures v.PReal? ==> r == Some(v.r)
    ensures v.PBool? ==> r == Some(if v.b then 1.0 else 0.0)
    ensures v.PStr? && v.s != "" ==> r == PyFloatText(v.s)
    ensures v.PList? && Truthy(v) ==> r == None
    ensures r.None? ==> Truthy(v)
  {
    if !Truthy(v) then Some(0.0)
    else
      match v
      case PBool(_) => Some(1.0)
      case PInt(i) => Some(i as real)
      case PReal(x) => Some(x)
      case PStr(s) => PyFloatText(s)
      case _ => None
  }

  lemma FloatExamples()
    ensures FloatOrZero(PStr("4.5")) == Some(4.5)
    ensures FloatOrZero(PNone) == Some(0.0)
    ensures FloatOrZero(PStr("")) == Some(0.0)
    ensures FloatOrZero(PStr("n/a")) == None
  {
    FloatFourAndHalf();
    FloatMalformed();
  }

  lemma FloatFourAndHalf()
    ensures PyFloatText("4.5") == Some(4.5)
  {
    var s := "4.5";
    StripNoSpace(s);
    assert !(s[0] == '+' || s[0] == '-');
    assert s[0..] == s;
    assert IndexOf(s, '.') == 1;
    assert s[..1] == "4" && s[2..] == "5";
    assert Number("4") == 4 && Number("5") == 5 by {
      assert "4"[..0] == "" && "5"[..0] == "";
    }
  }

  lemma FloatMalformed()
    ensures PyFloatText("n/a") == None
  {
    var s := "n/a";
    StripNoSpace(s);
    assert !(s[0] == '+' || s[0] == '-');
    assert s[0..] == s;
    assert IndexOf(s, '.') == 3;
    assert !AllDigits(s[..3]) by {
      assert s[..3][0] == 'n';
    }
  }

  // ---------------------------------------------------------------------
  // The result of extract_details_from_modal
  // ---------------------------------------------------------------------

  /** The dict the modal extraction hands back: `{}` when the panel could not
      be read, or the ten fields of the result mapping. */
  datatype Entry =
    | NoDetails
    | Details(name: PyVal, rating: PyVal, ratingCount: PyVal, description: PyVal, images: PyVal,
              lat: PyVal, lon: PyVal, phone: PyVal, address: PyVal, price: PyVal)

  /** `entry.get(key, default)`. */
  function EntryGet(e: Entry, key: string, default: PyVal): PyVal
  {
    match e
    case NoDetails => default
    case Details(_, _, _, _, _, _, _, _, _, _) =>
      if key == "name" then e.name
      else if key == "rating" then e.rating
      else if key == "rating_count" then e.ratingCount
      else if key == "description" then e.description
      else if key == "images" then e.images
      else if key == "lat" then e.lat
      else if key == "lon" then e.lon
      else if key == "phone" then e.phone
      else if key == "address" then e.address
      else if key == "price" then e.price
      else default
  }

  /** The `images` field: a string becomes a one-element list, and a falsy
      value the empty list. */
  function ModalImages(v: PyVal): (r: PyVal)
  {
    var w := if v.PStr? then PList([v]) else v;
    if Truthy(w) then w else PList([])
  }

  lemma ModalImagesSpec(v: PyVal)
    ensures v.PStr? ==> ModalImages(v) == PList([v])
    ensures !v.PStr? && !Truthy(v) ==> ModalImages(v) == PList([])
    ensures !v.PStr? && Truthy(v) ==> ModalImages(v) == v
    ensures Truthy(ModalImages(v)) || ModalImages(v) == PList([])
  {
  }

  /** The result mapping of `extract_details_from_modal`, from the dict the
      language model extracted. */
  function ModalResult(extracted: Dict): (e: Entry)
    ensures e.Details?
  {
    var m := AsMap(extracted);
    Details(
      Get(m, "name", PStr("")),
      Get(m, "rating", PNone),
      Get(m, "rating_count", PNone),
      Get(m, "description", PStr("")),
      ModalImages(Get(m, "images", PNone)),
      Get(m, "latitude", PNone),
      Get(m, "longitude", PNone),
      Get(m, "phone", PNone),
      Get(m, "address", PNone),
      Get(m, "price", PNone))
  }

  /** Name and description default to the empty text, the coordinates come
      from `latitude` and `longitude`, and every other field defaults to
      `None`; a field the model gave is kept, even when it is `None`. */
  lemma ModalResultSpec(extracted: Dict)
    requires DistinctKeys(extracted)
    ensures var e := ModalResult(extracted);
      && (forall i :: 0 <= i < |extracted| && extracted[i].0 == "name" ==> e.name == extracted[i].1)
      && (forall i :: 0 <= i < |extracted| && extracted[i].0 == "latitude" ==> e.lat == extracted[i].1)
      && (forall i :: 0 <= i < |extracted| && extracted[i].0 == "longitude" ==> e.lon == extracted[i].1)
      && (forall i :: 0 <= i < |extracted| && extracted[i].0 == "rating_count" ==> e.ratingCount == extracted[i].1)
      && ((forall i :: 0 <= i < |extracted| ==> extracted[i].0 != "name") ==> e.name == PStr(""))
      && ((forall i :: 0 <= i < |extracted| ==> extracted[i].0 != "description") ==> e.description == PStr(""))
      && ((forall i :: 0 <= i < |extracted| ==> extracted[i].0 != "price") ==> e.price == PNone)
      && ((forall i :: 0 <= i < |extracted| ==> extracted[i].0 != "rating_count") ==> e.ratingCount == PNone)
  {
    AsMapValues(extracted);
  }

  // ---------------------------------------------------------------------
  // db_data
  // ---------------------------------------------------------------------

  /** The pieces of a text, one character each (iterating over a `str`). */
  function Chars(s: string): (r: seq<string>)
    ensures |r| == |s|
    ensures forall i :: 0 <= i < |s| ==> r[i] == [s[i]]
  {
    if s == [] then [] else [[s[0]]] + Chars(s[1..])
  }

  /** The texts of a list holding only texts, or `None`. */
  function Texts(items: seq<PyVal>): (r: Option<seq<string>>)
    ensures r.Some? <==> forall i :: 0 <= i < |items| ==> items[i].PStr?
    ensures r.Some? ==> |r.value| == |items| && forall i :: 0 <= i < |items| ==> items[i] == PStr(r.value[i])
  {
    if items == [] then Some([])
    else if !items[0].PStr? then None
    else
      var rest := Texts(items[1..]);
      if rest.None? then None else Some([items[0].s] + rest.value)
  }

  /** `';'.join(v)`: `None` stands for the TypeError of a value that is not
      an iterable of texts. */
  function JoinImages(v: PyVal): (r: Option<string>)
    ensures v.PStr? ==> r == Some(Join(Chars(v.s), ";"))
    ensures v.PList? ==> (r.Some? <==> forall i :: 0 <= i < |v.items| ==> v.items[i].PStr?)
    ensures !v.PStr? && !v.PList? ==> r == None
  {
    match v
    case PStr(s) => Some(Join(Chars(s), ";"))
    case PList(items) =>
      var ts := Texts(items);
      if ts.Some? then Some(Join(ts.value, ";")) else None
    case _ => None
  }

  /** The row `process_search_term` stores for a card. */
  datatype DbRecord = DbRecord(
    productType: string, name: PyVal, description: PyVal, images: string, rating: real,
    ratingCount: PyVal, latitude: PyVal, longitude: PyVal, phone: PyVal, address: PyVal, price: PyVal)

  /** `db_data` as the dict handed to `create`, in its key order. */
  function AsDict(r: DbRecord): (d: Dict)
    ensures |d| == 11
  {
    [("product_type", PStr(r.productType)), ("name", r.name), ("description", r.description),
     ("images", PStr(r.images)), ("rating", PReal(r.rating)), ("rating_count", r.ratingCount),
     ("latitude", r.latitude), ("longitude", r.longitude), ("phone", r.phone),
     ("address", r.address), ("price", r.price)]
  }

  /** The keys of `db_data` are distinct columns of the table. */
  lemma AsDictKeys(r: DbRecord)
    ensures DistinctKeys(AsDict(r))
    ensures forall i :: 0 <= i < 11 ==> AsDict(r)[i].0 in Columns && AsDict(r)[i].0 != "id"
  {
  }

  /** `db_data` for an entry: `None` when building it raises (an `images`
      value that is not an iterable of texts, or a rating `float()` cannot
      read). */
  function DbData(productType: string, e: Entry): (r: Option<DbRecord>)
    ensures r.Some? <==> JoinImages(EntryGet(e, "images", PList([]))).Some?
                         && FloatOrZero(EntryGet(e, "rating", PNone)).Some?
    ensures r.Some? ==> r.value.productType == productType
  {
    var images := JoinImages(EntryGet(e, "images", PList([])));
    var rating := FloatOrZero(EntryGet(e, "rating", PNone));
    if images.None? || rating.None? then None
    else
      Some(DbRecord(
        productType,
        EntryGet(e, "name", PNone),
        EntryGet(e, "description", PNone),
        images.value,
        rating.value,
        EntryGet(e, "rating_count", PInt(0)),
        EntryGet(e, "lat", PNone),
        EntryGet(e, "lon", PNone),
        EntryGet(e, "phone", PNone),
        EntryGet(e, "address", PNone),
        EntryGet(e, "price", PNone)))
  }

  /** An empty entry gives a row of defaults: no images, rating 0, count 0. */
  lemma DbDataOfNoDetails(productType: string)
    ensures DbData(productType, NoDetails)
      == Some(DbRecord(productType, PNone, PNone, "", 0.0, PInt(0), PNone, PNone, PNone, PNone, PNone))
  {
  }

  /** The result mapping always holds `rating_count`, so the default 0 never
      applies to it: a missing count stays `None`. A falsy rating becomes 0. */
  lemma DbDataOfDetails(productType: string, e: Entry)
    requires e.Details? && DbData(productType, e).Some?
    ensures DbData(productType, e).value.ratingCount == e.ratingCount
    ensures !Truthy(e.rating) ==> DbData(productType, e).value.rating == 0.0
    ensures DbData(productType, e).value.latitude == e.lat
    ensures DbData(productType, e).value.longitude == e.lon
  {
  }

  /** A single image text from the model is stored as that text: it becomes
      a one-element list, and joining one piece gives it back. */
  lemma SingleImageStored(productType: string, extracted: Dict, src: string)
    requires Get(AsMap(extracted), "images", PNone) == PStr(src)
    requires DbData(productType, ModalResult(extracted)).Some?
    ensures DbData(productType, ModalResult(extracted)).value.images == src
  {
    assert ModalResult(extracted).images == PList([PStr(src)]);
    TextsOfStrList([src]);
    assert StrList([src]) == [PStr(src)];
  }

  /** The stored image list splits back into the images, when there is at
      least one and none holds a `;`. */
  lemma ImagesRoundTrip(productType: string, e: Entry, srcs: seq<string>)
    requires e.Details? && e.images == PList(StrList(srcs))
    requires srcs != [] && forall i :: 0 <= i < |srcs| ==> ';' !in srcs[i]
    requires FloatOrZero(e.rating).Some?
    ensures DbData(productType, e).Some?
    ensures Split(DbData(productType, e).value.images, ';') == srcs
  {
    TextsOfStrList(srcs);
    assert EntryGet(e, "images", PList([])) == e.images;
    assert JoinImages(e.images) == Some(Join(srcs, [';']));
    SplitJoin(srcs, ';');
  }

  lemma TextsOfStrList(srcs: seq<string>)
    ensures Texts(StrList(srcs)) == Some(srcs)
  {
    var t := Texts(StrList(srcs));
    assert t.Some?;
    assert t.value == srcs;
  }

  // ---------------------------------------------------------------------
  // The scroll loop
  // ---------------------------------------------------------------------

  /** The loop scrolls the feed at most this many times. */
  const MaxScrolls: nat := 25

  /** `prev_count` at the start of iteration `i`: 0 at first, then the count
      the previous iteration saw. `counts(i)` is the number of cards the feed
      shows after the scroll of iteration `i` (from 0). */
  function Prev(counts: nat -> nat, i: nat): nat
  {
    if i == 0 then 0 else counts(i - 1)
  }

  /** `stagnation` after iteration `i`: one more than before when the count
      did not change, back to 0 when it did. */
  function Stagnation(counts: nat -> nat, i: nat): nat
  {
    if counts(i) != Prev(counts, i) then 0
    else if i == 0 then 1
    else Stagnation(counts, i - 1) + 1
  }

  /** Iteration `i` ends the loop: two unchanged counts in a row, or the
      result hint reached (a hint of 0 stands for `None`). */
  predicate StopsAt(counts: nat -> nat, maxResults: nat, i: nat)
  {
    Stagnation(counts, i) >= 2 || (maxResults > 0 && counts(i) >= maxResults)
  }

  /** The number of scrolls made from iteration `i` on. */
  function ScrollsFrom(counts: nat -> nat, maxResults: nat, i: nat): (n: nat)
    requires i <= MaxScrolls
    ensures i < n <= MaxScrolls || n == i == MaxScrolls
    ensures forall j :: i <= j < n - 1 ==> !StopsAt(counts, maxResults, j)
    ensures n < MaxScrolls ==> StopsAt(counts, maxResults, n - 1)
    decreases MaxScrolls - i
  {
    if i == MaxScrolls then MaxScrolls
    else if StopsAt(counts, maxResults, i) then i + 1
    else ScrollsFrom(counts, maxResults, i + 1)
  }

  /** The number of scrolls the loop makes: between 1 and 25; no earlier
      iteration ends the loop, and the last one does unless it is the 25th. */
  function Scrolls(counts: nat -> nat, maxResults: nat): (n: nat)
    ensures 1 <= n <= MaxScrolls
    ensures forall j :: 0 <= j < n - 1 ==> !StopsAt(counts, maxResults, j)
    ensures n < MaxScrolls ==> StopsAt(counts, maxResults, n - 1)
  {
    ScrollsFrom(counts, maxResults, 0)
  }

  /** Stagnation reaches 2 exactly when this count and the one before both
      equal the count before them. */
  lemma StagnationMeaning(counts: nat -> nat, i: nat)
    ensures Stagnation(counts, i) >= 2 <==> i >= 1 && counts(i) == counts(i - 1) && counts(i - 1) == Prev(counts, i - 1)
  {
    if i >= 1 && counts(i) == counts(i - 1) {
      assert Stagnation(counts, i) == Stagnation(counts, i - 1) + 1;
    }
  }

  /** Once the count stops changing at iteration `k`, the loop ends by
      iteration `k + 2`, that is after at most `k + 3` scrolls. */
  lemma StableFeedHalts(counts: nat -> nat, maxResults: nat, k: nat)
    requires forall j :: k <= j ==> counts(j) == counts(k)
    ensures Scrolls(counts, maxResults) <= k + 3
  {
    var n := Scrolls(counts, maxResults);
    if k + 2 < n - 1 {
      assert counts(k + 2) == counts(k + 1) && counts(k + 1) == counts(k);
      StagnationMeaning(counts, k + 2);
      assert StopsAt(counts, maxResults, k + 2);
    }
  }

  /** With a hint, the loop ends no later than the first iteration whose
      count reaches it. */
  lemma HintReached(counts: nat -> nat, maxResults: nat, j: nat)
    requires maxResults > 0 && j < MaxScrolls && counts(j) >= maxResults
    ensures Scrolls(counts, maxResults) <= j + 1
  {
    var n := Scrolls(counts, maxResults);
    if j < n - 1 {
      assert StopsAt(counts, maxResults, j);
    }
  }

  /** A feed that keeps growing without reaching the hint is scrolled 25
      times. */
  lemma GrowingFeedScrolledFully(counts: nat -> nat, maxResults: nat)
    requires forall j: nat :: j < MaxScrolls ==> counts(j) > Prev(counts, j)
    requires maxResults == 0 || forall j: nat :: j < MaxScrolls ==> counts(j) < maxResults
    ensures Scrolls(counts, maxResults) == MaxScrolls
  {
  }

  /** The scroll loop of `process_search_term`: the number of scrolls it
      makes on a feed whose counts are `counts`. */
  method ScrollFeed(counts: nat -> nat, maxResults: nat) returns (n: nat)
    ensures n == Scrolls(counts, maxResults)
  {
    var stagnation := 0;
    var prevCount := 0;
    n := 0;
    for i := 0 to MaxScrolls
      invariant n == i
      invariant prevCount == Prev(counts, i)
      invariant stagnation == if i == 0 then 0 else Stagnation(counts, i - 1)
      invariant ScrollsFrom(counts, maxResults, i) == Scrolls(counts, maxResults)
    {
      n := n + 1;
      var cardsNow := counts(i);
      if cardsNow == prevCount {
        stagnation := stagnation + 1;
        if stagnation >= 2 {
          break;
        }
      } else {
        stagnation := 0;
      }
      prevCount := cardsNow;
      if maxResults > 0 && cardsNow >= maxResults {
        break;
      }
    }
  }

  /** `cards[:total_to_process]`: the first `min(max_results, len(cards))`
      cards, or all of them without a hint. */
  function SelectCards<T>(cards: seq<T>, maxResults: nat): (r: seq<T>)
    ensures |r| == if maxResults > 0 && maxResults < |cards| then maxResults else |cards|
    ensures r == cards[..|r|]
  {
    if maxResults > 0 && maxResults < |cards| then cards[..maxResults] else cards
  }

  /** Selecting again with the same hint selects the same cards. */
  lemma SelectCardsIdempotent<T>(cards: seq<T>, maxResults: nat)
    ensures SelectCards(SelectCards(cards, maxResults), maxResults) == SelectCards(cards, maxResults)
  {
  }

  // ---------------------------------------------------------------------
  // The card loop
  // ---------------------------------------------------------------------

  /** What opening one card gives: the click or the extraction raises, the
      panel cannot be read (`{}`), or the dict the model extracted. */
  datatype Card = Fails | NoPanel | Panel(extracted: Dict)

  /** The entry of a card, or `None` when getting it raises. */
  function EntryOf(c: Card): Option<Entry>
  {
    match c
    case Fails => None
    case NoPanel => Some(NoDetails)
    case Panel(x) => Some(ModalResult(x))
  }

  /** The row a card gives, or `None` when processing it raises. */
  function CardRecord(productType: string, c: Card): Option<DbRecord>
  {
    match EntryOf(c)
    case None => None
    case Some(e) => DbData(productType, e)
  }

  /** The exact key the card is looked up by. */
  function KeyOf(r: DbRecord): ExactKey
  {
    ExactKey(r.name, r.latitude, r.longitude, PStr(r.productType))
  }

  /** The exact key of a stored row. */
  function RowKey(r: Row): ExactKey
  {
    ExactKey(Column(r, "name"), Column(r, "latitude"), Column(r, "longitude"), Column(r, "product_type"))
  }

  /** Storing a card's row: nothing when a row already has its key,
      otherwise `create`. */
  function Store(t: Table, r: DbRecord): Table
  {
    if ExactQuery(t, KeyOf(r)) != [] then t else InsertResult(t, AsDict(r)).1
  }

  /** What one iteration of the card loop does to the table: nothing when
      processing the card raises, otherwise its row is stored. */
  function CardStep(t: Table, productType: string, c: Card): Table
  {
    match CardRecord(productType, c)
    case None => t
    case Some(r) => Store(t, r)
  }

  /** What the card loop does to the table, card after card. */
  function CardsEffect(t: Table, productType: string, cards: seq<Card>): Table
    decreases |cards|
  {
    if cards == [] then t
    else CardStep(CardsEffect(t, productType, cards[..|cards| - 1]), productType, cards[|cards| - 1])
  }

  /** The stored row holds the card's fields. */
  lemma StoredColumns(r: DbRecord, id: nat)
    ensures var row := Row(id, AsMap(AsDict(r)));
      && Column(row, "name") == r.name && Column(row, "latitude") == r.latitude
      && Column(row, "longitude") == r.longitude && Column(row, "product_type") == PStr(r.productType)
  {
    var d := AsDict(r);
    assert d[1] == ("name", r.name) && d[6] == ("latitude", r.latitude);
    assert d[7] == ("longitude", r.longitude) && d[0] == ("product_type", PStr(r.productType));
    StoredEntry(d, id, 0);
    StoredEntry(d, id, 1);
    StoredEntry(d, id, 6);
    StoredEntry(d, id, 7);
  }

  /** Each entry of a dict with distinct keys is a column of the row made
      from it. */
  lemma StoredEntry(d: Dict, id: nat, i: nat)
    requires DistinctKeys(d) && i < |d|
    ensures Column(Row(id, AsMap(d)), d[i].0) == d[i].1
  {
    AsMapValues(d);
  }

  /** A row whose data is well formed has bindable key fields. */
  lemma WellFormedKey(r: DbRecord)
    requires WellFormedData(AsDict(r))
    ensures Bindable(r.name) && Bindable(r.latitude) && Bindable(r.longitude)
  {
    assert AsDict(r)[1].1 == r.name && AsDict(r)[6].1 == r.latitude && AsDict(r)[7].1 == r.longitude;
  }

  /** Storing appends the row under the next id exactly when no stored row
      has its key and `create` accepts it; otherwise it changes nothing. */
  lemma StoreCases(t: Table, r: DbRecord)
    ensures ExactQuery(t, KeyOf(r)) == [] && Insertable(AsDict(r)) ==>
      Store(t, r) == Table(t.rows + [Row(t.lastId + 1, AsMap(AsDict(r)))], t.lastId + 1)
    ensures ExactQuery(t, KeyOf(r)) != [] || !Insertable(AsDict(r)) ==> Store(t, r) == t
    ensures Store(t, r) != t <==> ExactQuery(t, KeyOf(r)) == [] && Insertable(AsDict(r))
  {
    if ExactQuery(t, KeyOf(r)) == [] {
      InsertCases(t, AsDict(r));
      if Insertable(AsDict(r)) {
        assert |Store(t, r).rows| == |t.rows| + 1;
      }
    }
  }

  /** Storing adds at most one row and keeps the table valid; the old rows
      stay in front. */
  lemma StoreSpec(t: Table, r: DbRecord)
    requires ValidTable(t)
    ensures var t' := Store(t, r);
      && ValidTable(t')
      && (t'.rows == t.rows || (|t'.rows| == |t.rows| + 1 && t'.rows[..|t.rows|] == t.rows))
  {
    if ExactQuery(t, KeyOf(r)) == [] {
      AsDictKeys(r);
      InsertSpec(t, AsDict(r));
      var t' := Store(t, r);
      if Insertable(AsDict(r)) {
        assert t'.rows[..|t.rows|] == t.rows;
      }
    }
  }

  /** A key any row can match: no field is `None` or a list. */
  predicate NonNullKey(k: ExactKey)
  {
    && !k.name.PNone? && !k.latitude.PNone? && !k.longitude.PNone?
    && Bindable(k.name) && Bindable(k.latitude) && Bindable(k.longitude)
  }

  /** SQL equality of a value with itself fails exactly for NULL and for
      values that cannot be bound. */
  lemma SqlEqSelf(v: PyVal)
    ensures SqlEq(v, v) <==> !v.PNone? && Bindable(v)
  {
  }

  lemma SqlEqSymmetric(a: PyVal, b: PyVal)
    ensures SqlEq(a, b) <==> SqlEq(b, a)
  {
  }

  /** Storing a row twice is storing it once, when its key has no `None`:
      a new record leaves one more row, a known one none. */
  lemma StoreIdempotent(t: Table, r: DbRecord)
    requires ValidTable(t) && NonNullKey(KeyOf(r))
    ensures Store(Store(t, r), r) == Store(t, r)
    ensures ExactQuery(t, KeyOf(r)) == [] && Insertable(AsDict(r)) ==>
      |Store(Store(t, r), r).rows| == |t.rows| + 1
    ensures ExactQuery(t, KeyOf(r)) != [] ==> Store(Store(t, r), r) == t
  {
    var k := KeyOf(r);
    var t1 := Store(t, r);
    StoreCases(t, r);
    if t1 != t {
      var row := Row(t.lastId + 1, AsMap(AsDict(r)));
      StoredColumns(r, t.lastId + 1);
      SqlEqSelf(r.name);
      SqlEqSelf(r.latitude);
      SqlEqSelf(r.longitude);
      assert MatchesExact(row, k);
      assert row in t1.rows;
      assert row in ExactQuery(t1, k);
    }
  }

  /** A new record stored twice leaves exactly one row with its key. */
  lemma StoreTwiceOneMatch(t: Table, r: DbRecord)
    requires ValidTable(t) && NonNullKey(KeyOf(r))
    requires ExactQuery(t, KeyOf(r)) == [] && Insertable(AsDict(r))
    ensures ExactQuery(Store(Store(t, r), r), KeyOf(r)) == [Row(t.lastId + 1, AsMap(AsDict(r)))]
  {
    var k := KeyOf(r);
    var row := Row(t.lastId + 1, AsMap(AsDict(r)));
    StoreIdempotent(t, r);
    StoreCases(t, r);
    StoredColumns(r, t.lastId + 1);
    SqlEqSelf(r.name);
    SqlEqSelf(r.latitude);
    SqlEqSelf(r.longitude);
    SqlEqSelf(PStr(r.productType));
    assert MatchesExact(row, k);
    var pred := x => MatchesExact(x, k);
    FilterAppend(t.rows, [row], pred);
    assert Filter([row], pred) == [row];
  }

  /** Processing the same card twice is processing it once, when its key has
      no `None`. */
  lemma CardIdempotent(t: Table, productType: string, c: Card)
    requires ValidTable(t)
    requires CardRecord(productType, c).Some? && NonNullKey(KeyOf(CardRecord(productType, c).value))
    ensures CardStep(CardStep(t, productType, c), productType, c) == CardStep(t, productType, c)
  {
    var r := CardRecord(productType, c).value;
    StoreIdempotent(t, r);
    assert CardStep(t, productType, c) == Store(t, r);
    assert CardStep(Store(t, r), productType, c) == Store(Store(t, r), r);
  }

  lemma NullMatchesNothing(t: Table, k: ExactKey)
    requires k.name.PNone? || k.latitude.PNone? || k.longitude.PNone?
    ensures ExactQuery(t, k) == []
  {
    var q := ExactQuery(t, k);
    if q != [] {
      HeadIsMember(q);
      assert false;
    }
  }

  /** A key with a `None` matches no row, so a row that can be stored is
      stored again each time. */
  lemma NullKeyStoredTwice(t: Table, r: DbRecord)
    requires ValidTable(t) && WellFormedData(AsDict(r))
    requires r.name.PNone? || r.latitude.PNone? || r.longitude.PNone?
    ensures |Store(Store(t, r), r).rows| == |t.rows| + 2
  {
    AsDictKeys(r);
    StoredColumns(r, 0);
    assert Insertable(AsDict(r));
    NullMatchesNothing(t, KeyOf(r));
    var t1 := Store(t, r);
    InsertSpec(t, AsDict(r));
    NullMatchesNothing(t1, KeyOf(r));
    InsertSpec(t1, AsDict(r));
  }

  /** No two rows share an exact key under SQL equality. */
  predicate NoDuplicateKeys(t: Table)
  {
    forall i, j :: 0 <= i < j < |t.rows| ==> !MatchesExact(t.rows[j], RowKey(t.rows[i]))
  }

  /** The new row matches no old row's key when no old row matched its key. */
  lemma FreshKeyDistinct(t: Table, r: DbRecord, id: nat)
    requires Bindable(r.name) && Bindable(r.latitude) && Bindable(r.longitude)
    requires ExactQuery(t, KeyOf(r)) == []
    ensures forall i :: 0 <= i < |t.rows| ==> !MatchesExact(Row(id, AsMap(AsDict(r))), RowKey(t.rows[i]))
  {
    var row := Row(id, AsMap(AsDict(r)));
    StoredColumns(r, id);
    forall i | 0 <= i < |t.rows| ensures !MatchesExact(row, RowKey(t.rows[i])) {
      var x := t.rows[i];
      assert x in t.rows;
      assert !MatchesExact(x, KeyOf(r));
      SqlEqSymmetric(Column(x, "name"), r.name);
      SqlEqSymmetric(Column(x, "latitude"), r.latitude);
      SqlEqSymmetric(Column(x, "longitude"), r.longitude);
      SqlEqSymmetric(Column(x, "product_type"), PStr(r.productType));
    }
  }

  /** Appending a row whose key no old row has keeps the keys distinct. */
  lemma AppendNoDuplicates(t: Table, row: Row, t1: Table)
    requires NoDuplicateKeys(t) && t1.rows == t.rows + [row]
    requires forall i :: 0 <= i < |t.rows| ==> !MatchesExact(row, RowKey(t.rows[i]))
    ensures NoDuplicateKeys(t1)
  {
    forall i, j | 0 <= i < j < |t1.rows| ensures !MatchesExact(t1.rows[j], RowKey(t1.rows[i])) {
      assert t1.rows[i] == t.rows[i];
      if j < |t.rows| {
        assert t1.rows[j] == t.rows[j];
      }
    }
  }

  /** The card loop never stores a second row with the key of a stored row. */
  lemma StoreNoDuplicates(t: Table, r: DbRecord)
    requires ValidTable(t) && NoDuplicateKeys(t)
    ensures NoDuplicateKeys(Store(t, r))
  {
    var t1 := Store(t, r);
    StoreCases(t, r);
    if t1 != t {
      assert Insertable(AsDict(r));
      WellFormedKey(r);
      FreshKeyDistinct(t, r, t.lastId + 1);
      AppendNoDuplicates(t, Row(t.lastId + 1, AsMap(AsDict(r))), t1);
    }
  }

  /** One card adds at most one row, keeps the table valid and its old
      rows in front, and never adds a duplicate key. */
  lemma CardStepSpec(t: Table, productType: string, c: Card)
    requires ValidTable(t)
    ensures var t' := CardStep(t, productType, c);
      && ValidTable(t')
      && (t'.rows == t.rows || (|t'.rows| == |t.rows| + 1 && t'.rows[..|t.rows|] == t.rows))
      && (NoDuplicateKeys(t) ==> NoDuplicateKeys(t'))
  {
    var r := CardRecord(productType, c);
    if r.Some? {
      assert CardStep(t, productType, c) == Store(t, r.value);
      StoreSpec(t, r.value);
      if NoDuplicateKeys(t) {
        StoreNoDuplicates(t, r.value);
      }
    }
  }

  /** Over the whole loop: the table stays valid, keeps its rows in front,
      and gains at most one row per card. */
  lemma {:induction false} CardsEffectSpec(t: Table, productType: string, cards: seq<Card>)
    requires ValidTable(t)
    ensures var t' := CardsEffect(t, productType, cards);
      && ValidTable(t')
      && |t.rows| <= |t'.rows| <= |t.rows| + |cards|
      && t'.rows[..|t.rows|] == t.rows
    decreases |cards|
  {
    if cards != [] {
      var init := cards[..|cards| - 1];
      CardsEffectSpec(t, productType, init);
      var t0 := CardsEffect(t, productType, init);
      var c := cards[|cards| - 1];
      CardStepSpec(t0, productType, c);
      var t' := CardStep(t0, productType, c);
      assert CardsEffect(t, productType, cards) == t';
      PrefixOfPrefix(t.rows, t0.rows, t'.rows);
    }
  }

  /** The card loop keeps the exact keys of the rows distinct. */
  lemma {:induction false} CardsEffectNoDuplicates(t: Table, productType: string, cards: seq<Card>)
    requires ValidTable(t) && NoDuplicateKeys(t)
    ensures NoDuplicateKeys(CardsEffect(t, productType, cards))
    decreases |cards|
  {
    if cards != [] {
      var init := cards[..|cards| - 1];
      CardsEffectNoDuplicates(t, productType, init);
      CardsEffectSpec(t, productType, init);
      CardStepSpec(CardsEffect(t, productType, init), productType, cards[|cards| - 1]);
    }
  }

  lemma PrefixOfPrefix(a: seq<Row>, b: seq<Row>, c: seq<Row>)
    requires |a| <= |b| <= |c| && b[..|a|] == a && c[..|b|] == b
    ensures c[..|a|] == a
  {
    assert c[..|a|] == c[..|b|][..|a|];
  }

  /** The loop over two runs of cards is the second run after the first. */
  lemma {:induction false} CardsEffectAppend(t: Table, productType: string, a: seq<Card>, b: seq<Card>)
    ensures CardsEffect(t, productType, a + b) == CardsEffect(CardsEffect(t, productType, a), productType, b)
    decreases |b|
  {
    if b == [] {
      assert a + b == a;
    } else {
      assert (a + b)[..|a + b| - 1] == a + b[..|b| - 1];
      CardsEffectAppend(t, productType, a, b[..|b| - 1]);
    }
  }

  /** A card whose processing fails is skipped: the loop goes on with the
      next card as if it had not been there. */
  lemma FailedCardSkipped(t: Table, productType: string, a: seq<Card>, c: Card, b: seq<Card>)
    requires CardRecord(productType, c).None?
    ensures CardsEffect(t, productType, a + [c] + b) == CardsEffect(t, productType, a + b)
  {
    CardsEffectAppend(t, productType, a + [c], b);
    CardsEffectAppend(t, productType, a, [c]);
    assert CardsEffect(CardsEffect(t, productType, a), productType, [c]) == CardsEffect(t, productType, a) by {
      assert [c][..0] == [];
    }
    CardsEffectAppend(t, productType, a, b);
  }

  /** The card loop of `process_search_term` against the record store. */
  method ProcessCards(db: DatabaseManager, productType: string, cards: seq<Card>)
    requires db.Valid()
    modifies db
    ensures db.Valid()
    ensures db.table == CardsEffect(old(db.table), productType, cards)
  {
    for i := 0 to |cards|
      invariant db.Valid()
      invariant db.table == CardsEffect(old(db.table), productType, cards[..i])
    {
      assert cards[..i + 1][..i] == cards[..i];
      ghost var before := db.table;
      var r := CardRecord(productType, cards[i]);
      if r.Some? {
        var existing := db.GetExact(KeyOf(r.value));
        if existing == [] {
          AsDictKeys(r.value);
          var _ := db.Create(AsDict(r.value));
        }
      }
      assert db.table == CardStep(before, productType, cards[i]);
    }
    assert cards[..|cards|] == cards;
  }

  /** `process_search_term` once the feed is open: scroll, choose the cards,
      and store them. */
  method ProcessSearchTerm(db: DatabaseManager, productType: string, counts: nat -> nat,
                           cards: seq<Card>, maxResults: nat) returns (scrolls: nat)
    requires db.Valid()
    modifies db
    ensures scrolls == Scrolls(counts, maxResults)
    ensures db.Valid()
    ensures db.table == CardsEffect(old(db.table), productType, SelectCards(cards, maxResults))
  {
    scrolls := ScrollFeed(counts, maxResults);
    ProcessCards(db, productType, SelectCards(cards, maxResults));
  }
}
