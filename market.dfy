/**
  One market of the listing feed and the text of the alert sent for it:
  `build_market_url` and `format_market_msg`.
 */
module Market {

  import opened Wrappers

  /** The `outcomePrices` field: absent or null, a JSON list (each element
      given by its `str` rendering), or any other value (given by its `str`). */
  datatype Prices = NoPrices | PriceList(texts: seq<string>) | PriceValue(text: string)

  /** One market object of the feed. `id` is already `StrId` of the raw id. The optional text fields
      are None when absent or null; `active` is the truthiness of that field. */
  datatype Item = Item(
    id: string,
    question: Option<string>,
    slug: Option<string>,
    createdAt: Option<string>,
    startDate: Option<string>,
    category: Option<string>,
    active: bool,
    outcomePrices: Prices)

  /** The raw `id` field of a feed object. */
  datatype RawId = Absent | Null | Text(text: string) | Integer(value: int)

  /** Decimal digits of a natural number. */
  function Digits(n: nat): (s: string)
    ensures |s| >= 1 && forall k :: 0 <= k < |s| ==> '0' <= s[k] <= '9'
  {
    var d := ['0' + (n % 10) as char];
    if n < 10 then d else Digits(n / 10) + d
  }

  /** The number a string of decimal digits spells. */
  function DigitVal(s: string): nat {
    if s == [] then 0
    else
      var c := s[|s| - 1];
      10 * DigitVal(s[..|s| - 1]) + (if '0' <= c <= '9' then (c - '0') as nat else 0)
  }

  /** The digits of n spell n, so distinct numbers get distinct texts. */
  lemma {:induction false} DigitsValue(n: nat)
    ensures DigitVal(Digits(n)) == n
    decreases n
  {
    var d := ['0' + (n % 10) as char];
    if n >= 10 {
      DigitsValue(n / 10);
      var s := Digits(n / 10) + d;
      assert s[..|s| - 1] == Digits(n / 10);
    }
  }

  /** Two different integer ids never become the same key of `seen`. */
  lemma IntegerIdsDistinct(a: int, b: int)
    requires a != b
    ensures StrId(Integer(a)) != StrId(Integer(b))
  {
    if a < 0 && b < 0 {
      DigitsInjective(-a, -b);
      SignedText(Digits(-a), Digits(-b));
    } else if a >= 0 && b >= 0 {
      DigitsInjective(a, b);
    } else if a < 0 {
      assert Digits(b)[0] != '-';
    } else {
      assert Digits(a)[0] != '-';
    }
  }

  lemma DigitsInjective(x: nat, y: nat)
    requires x != y
    ensures Digits(x) != Digits(y)
  {
    DigitsValue(x);
    DigitsValue(y);
  }

  lemma SignedText(s: string, t: string)
    requires s != t
    ensures "-" + s != "-" + t
  {
    assert ("-" + s)[1..] == s && ("-" + t)[1..] == t;
  }

  /** `str(m.get("id"))`: a missing or null id becomes the text "None". */
  function StrId(raw: RawId): string {
    match raw
    case Absent => "None"
    case Null => "None"
    case Text(t) => t
    case Integer(v) => if v < 0 then "-" + Digits(-v) else Digits(v)
  }

  /** Only a literal empty text id gives the empty id the loops skip; a
      missing or null id is the non-empty "None" and is treated like any
      other id. */
  lemma EmptyIdOnlyFromEmptyText(raw: RawId)
    ensures StrId(raw) == "" <==> raw == Text("")
    ensures raw.Absent? || raw.Null? ==> StrId(raw) == "None"
  {
  }

  const HomeUrl: string := "https://polymarket.com/"
  const EventUrlPrefix: string := "https://polymarket.com/event/"
  const DefaultTitle: string := "Новый рынок на Polymarket"
  const Placeholder: string := "—"
  const PriceSeparator: string := ", "
  const MaxShownPrices: nat := 3

  /** Python truthiness of an optional text: absent, null and "" are falsy. */
  predicate Truthy(v: Option<string>) {
    v.Some? && v.value != ""
  }

  /** Python's `v or fallback` on an optional text. */
  function Or(v: Option<string>, fallback: string): string {
    if Truthy(v) then v.value else fallback
  }

  function BuildMarketUrl(slug: Option<string>): (url: string)
    ensures url == HomeUrl <==> !Truthy(slug)
    ensures Truthy(slug) ==> |url| > |EventUrlPrefix| && url[..|EventUrlPrefix|] == EventUrlPrefix
  {
    if !Truthy(slug) then HomeUrl else EventUrlPrefix + slug.value
  }

  /** Reads the slug back out of an event link; None for any other text. */
  function SlugOfUrl(url: string): Option<string> {
    if |url| > |EventUrlPrefix| && url[..|EventUrlPrefix|] == EventUrlPrefix
    then Some(url[|EventUrlPrefix|..])
    else None
  }

  /** The link of a market determines its slug: building and reading back
      gives the slug when it is truthy, and nothing for the home page. */
  lemma UrlRoundTrip(slug: Option<string>)
    ensures SlugOfUrl(BuildMarketUrl(slug)) == if Truthy(slug) then slug else None
  {
    if Truthy(slug) {
      var url := BuildMarketUrl(slug);
      assert url[|EventUrlPrefix|..] == slug.value;
    }
  }

  /** Two markets with different truthy slugs never share a link. */
  lemma UrlInjective(a: Option<string>, b: Option<string>)
    requires Truthy(a) && Truthy(b) && a != b
    ensures BuildMarketUrl(a) != BuildMarketUrl(b)
  {
    UrlRoundTrip(a);
    UrlRoundTrip(b);
  }

  /** Sum of the lengths of the parts. */
  function TotalLength(parts: seq<string>): nat {
    if parts == [] then 0 else |parts[0]| + TotalLength(parts[1..])
  }

  /** Python's `sep.join(parts)`. */
  function Join(parts: seq<string>, sep: string): (s: string)
    ensures |s| == TotalLength(parts) + (if parts == [] then 0 else (|parts| - 1) * |sep|)
  {
    if parts == [] then ""
    else if |parts| == 1 then parts[0]
    else parts[0] + sep + Join(parts[1..], sep)
  }

  /** The outcome-price text of an alert. */
  function PricesText(p: Prices): string {
    match p
    case NoPrices => Placeholder
    case PriceList(ts) =>
      var n := if |ts| < MaxShownPrices then |ts| else MaxShownPrices;
      Join(ts[..n], PriceSeparator)
    case PriceValue(t) => t
  }

  /** A list of prices shows at most its first three entries, separated by
      ", "; an empty list shows as empty text (not the placeholder); any
      other value shows as its text; an absent or null value shows as the
      placeholder. */
  lemma {:induction false} PricesRendering(p: Prices)
    ensures p.NoPrices? ==> PricesText(p) == Placeholder
    ensures p.PriceList? && |p.texts| > MaxShownPrices ==>
      PricesText(p) == PricesText(PriceList(p.texts[..MaxShownPrices]))
    ensures p.PriceList? && p.texts == [] ==> PricesText(p) == ""
    ensures p.PriceList? && |p.texts| == 1 ==> PricesText(p) == p.texts[0]
    ensures p.PriceList? && |p.texts| == 2 ==> PricesText(p) == p.texts[0] + PriceSeparator + p.texts[1]
    ensures p.PriceValue? ==> PricesText(p) == p.text
    ensures p.PriceList? && |p.texts| >= MaxShownPrices ==>
      PricesText(p) == p.texts[0] + PriceSeparator + p.texts[1] + PriceSeparator + p.texts[2]
  {
    if p.PriceList? && |p.texts| == 2 {
      var ts := p.texts;
      assert ts[..2] == ts && ts[1..] == [ts[1]];
      assert Join([ts[1]], PriceSeparator) == ts[1];
      assert Join(ts, PriceSeparator) == ts[0] + PriceSeparator + ts[1];
    }
    if p.PriceList? && |p.texts| >= MaxShownPrices {
      var ts := p.texts;
      assert ts[..MaxShownPrices][..MaxShownPrices] == ts[..MaxShownPrices];
      var three := ts[..MaxShownPrices];
      assert three[1..] == [ts[1], ts[2]];
      assert [ts[1], ts[2]][1..] == [ts[2]];
      assert Join([ts[2]], PriceSeparator) == ts[2];
      assert Join([ts[1], ts[2]], PriceSeparator) == ts[1] + PriceSeparator + ts[2];
      assert Join(three, PriceSeparator) == ts[0] + PriceSeparator + (ts[1] + PriceSeparator + ts[2]);
    }
  }

  /** `m.get("question") or` the default title. */
  function TitleOf(m: Item): string {
    Or(m.question, DefaultTitle)
  }

  /** `createdAt or startDate or ""`, localised when non-empty, else the placeholder. */
  function CreatedText(m: Item, localize: string -> string): string {
    var raw := Or(m.createdAt, Or(m.startDate, ""));
    if raw != "" then localize(raw) else Placeholder
  }

  function CategoryText(m: Item): string {
    Or(m.category, Placeholder)
  }

  function StatusText(m: Item): string {
    if m.active then "active" else "inactive"
  }

  /** The title is the question when it is truthy, else the default title. */
  lemma TitleFallback(m: Item)
    ensures Truthy(m.question) ==> TitleOf(m) == m.question.value
    ensures !Truthy(m.question) ==> TitleOf(m) == DefaultTitle
  {
  }

  /** The creation time shown prefers `createdAt`, then `startDate`, and is
      the placeholder only when both are falsy. */
  lemma CreatedFallback(m: Item, localize: string -> string)
    ensures Truthy(m.createdAt) ==> CreatedText(m, localize) == localize(m.createdAt.value)
    ensures !Truthy(m.createdAt) && Truthy(m.startDate) ==>
      CreatedText(m, localize) == localize(m.startDate.value)
    ensures !Truthy(m.createdAt) && !Truthy(m.startDate) ==> CreatedText(m, localize) == Placeholder
  {
  }

  /** The six lines of an alert, top to bottom. */
  function MessageLines(m: Item, localize: string -> string): seq<string> {
    [ TitlePrefix + TitleOf(m),
      CategoryPrefix + CategoryText(m),
      CreatedPrefix + CreatedText(m, localize),
      StatusPrefix + StatusText(m),
      PricesPrefix + PricesText(m.outcomePrices),
      LinkPrefix + BuildMarketUrl(m.slug) ]
  }

  /** The HTML text of the alert for one market. */
  function FormatMarketMsg(m: Item, localize: string -> string): string {
    Join(MessageLines(m, localize), "\n")
  }

  /** Python's `s.split("\n")`. */
  function SplitLines(s: string): (lines: seq<string>)
    ensures |lines| >= 1
  {
    if s == [] then [""]
    else
      var rest := SplitLines(s[1..]);
      if s[0] == '\n' then [""] + rest
      else [[s[0]] + rest[0]] + rest[1..]
  }

  lemma {:induction false} SplitSingleLine(a: string)
    requires '\n' !in a
    ensures SplitLines(a) == [a]
  {
    if a != [] {
      SplitSingleLine(a[1..]);
      assert [a[0]] + a[1..] == a;
    }
  }

  lemma {:induction false} SplitFirstLine(a: string, b: string)
    requires '\n' !in a
    ensures SplitLines(a + "\n" + b) == [a] + SplitLines(b)
  {
    if a == [] {
      assert a + "\n" + b == "\n" + b;
      assert ("\n" + b)[1..] == b;
    } else {
      var s := a + "\n" + b;
      assert s[1..] == a[1..] + "\n" + b;
      SplitFirstLine(a[1..], b);
      assert [a[0]] + a[1..] == a;
    }
  }

  /** Splitting joined lines at the line breaks gives the lines back, provided
      no line holds a line break itself. */
  lemma {:induction false} SplitJoinRoundTrip(lines: seq<string>)
    requires lines != []
    requires forall k :: 0 <= k < |lines| ==> '\n' !in lines[k]
    ensures SplitLines(Join(lines, "\n")) == lines
  {
    if |lines| == 1 {
      SplitSingleLine(lines[0]);
    } else {
      SplitJoinRoundTrip(lines[1..]);
      SplitFirstLine(lines[0], Join(lines[1..], "\n"));
      assert [lines[0]] + lines[1..] == lines;
    }
  }

  const TitlePrefix: string := "<b>Новый рынок:</b> "
  const CategoryPrefix: string := "Категория: "
  const CreatedPrefix: string := "Создано: "
  const StatusPrefix: string := "Статус: "
  const PricesPrefix: string := "Цены исходов: "
  const LinkPrefix: string := "Ссылка: "

  predicate LineFree(s: string) {
    '\n' !in s
  }

  /** An alert has exactly six lines, each carrying one field with its
      fallback applied, provided the field texts hold no line break. */
  lemma MessageFields(m: Item, localize: string -> string)
    requires LineFree(TitleOf(m)) && LineFree(CategoryText(m))
    requires LineFree(CreatedText(m, localize)) && LineFree(PricesText(m.outcomePrices))
    requires m.slug.Some? ==> LineFree(m.slug.value)
    ensures SplitLines(FormatMarketMsg(m, localize)) == MessageLines(m, localize)
  {
    var lines := MessageLines(m, localize);
    PrefixedLine(TitlePrefix, TitleOf(m));
    PrefixedLine(CategoryPrefix, CategoryText(m));
    PrefixedLine(CreatedPrefix, CreatedText(m, localize));
    PrefixedLine(StatusPrefix, StatusText(m));
    PrefixedLine(PricesPrefix, PricesText(m.outcomePrices));
    PrefixedLine(EventUrlPrefix, if Truthy(m.slug) then m.slug.value else "");
    PrefixedLine(LinkPrefix, BuildMarketUrl(m.slug));
    assert forall k :: 0 <= k < |lines| ==> LineFree(lines[k]);
    SplitJoinRoundTrip(lines);
  }

  lemma PrefixedLine(prefix: string, text: string)
    requires LineFree(prefix) && LineFree(text)
    ensures LineFree(prefix + text)
  {
  }
}
