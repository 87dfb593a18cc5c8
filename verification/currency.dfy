/** The pure part of usuarios/currency_service.py: the two conversions with
    the quote as a parameter, the fallback chain from the primary quote API to
    the backup API to the fixed default, and the per-type cache. The HTTP
    calls become the replies they could produce; the cache is a map. */
module Currency {
  import opened Decimals
  import opened Optional
  import opened Text

  /** `DEFAULT_RATE = Decimal("1000.00")`. */
  const DefaultRate: Dec := Dec(100000, 2)

  /** `not amount` for an optional Decimal amount: None or zero. */
  predicate Falsy(amount: Option<Dec>) {
    amount.None? || amount.value.IsZero()
  }

  /** The exact product of two decimals, as Decimal multiplication gives it. */
  function Mul(a: Dec, b: Dec): (r: Dec)
    ensures r.coef * Pow10(a.scale) * Pow10(b.scale) == a.coef * b.coef * Pow10(r.scale)
  {
    Pow10Sum(a.scale, b.scale);
    Dec(a.coef * b.coef, a.scale + b.scale)
  }

  lemma {:induction false} Pow10Sum(a: nat, b: nat)
    ensures Pow10(a + b) == Pow10(a) * Pow10(b)
  {
    if a > 0 {
      Pow10Sum(a - 1, b);
      assert Pow10(a + b) == 10 * Pow10(a - 1 + b);
    }
  }

  /** `convert_usdc_to_ars`: 0.00 for a falsy amount, otherwise amount × rate
      quantized to cents with the context's ROUND_HALF_EVEN. The result is in
      ARS cents. */
  function ConvertUsdcToArs(amount: Option<Dec>, rate: Dec): (cents: int)
    ensures Falsy(amount) ==> cents == 0
    ensures !Falsy(amount) ==>
      IsRounding(HalfEven, amount.value.coef * rate.coef * 100, Pow10(amount.value.scale + rate.scale), cents)
  {
    if Falsy(amount) then 0
    else QuantizeCents(HalfEven, Mul(amount.value, rate))
  }

  /** `convert_ars_to_usdc`: 0.00 for a falsy amount or a zero rate, otherwise
      amount / rate quantized to cents with ROUND_HALF_EVEN. The result is in
      USDC cents; amount/rate·100 is (coef_a·10^scale_r·100)/(coef_r·10^scale_a). */
  function ConvertArsToUsdc(amount: Option<Dec>, rate: Dec): (cents: int)
    ensures Falsy(amount) || rate.IsZero() ==> cents == 0
    ensures !Falsy(amount) && rate.coef > 0 ==>
      IsRounding(HalfEven, amount.value.coef * Pow10(rate.scale) * 100, rate.coef * Pow10(amount.value.scale), cents)
    ensures !Falsy(amount) && rate.coef < 0 ==>
      IsRounding(HalfEven, -(amount.value.coef * Pow10(rate.scale) * 100), -(rate.coef * Pow10(amount.value.scale)), cents)
  {
    if Falsy(amount) || rate.IsZero() then 0
    else
      var n := amount.value.coef * Pow10(rate.scale) * 100;
      var d := rate.coef * Pow10(amount.value.scale);
      if d > 0 then Round(HalfEven, n, d) else Round(HalfEven, -n, -d)
  }

  /** A falsy amount converts to 0.00 whatever the rate, so the rate need
      not be looked up. */
  lemma FalsyIgnoresRate(amount: Option<Dec>, r1: Dec, r2: Dec)
    requires Falsy(amount)
    ensures ConvertUsdcToArs(amount, r1) == ConvertUsdcToArs(amount, r2) == 0
    ensures ConvertArsToUsdc(amount, r1) == ConvertArsToUsdc(amount, r2) == 0
  {
  }

  /** Converting c USDC cents at a whole rate of R ARS per USDC is exact:
      c·R ARS cents. */
  lemma UsdcToArsWholeRate(c: int, rate: nat)
    requires c != 0
    ensures ConvertUsdcToArs(Some(Dec(c, 2)), Dec(rate, 0)) == c * rate
  {
    var x := c * rate;
    var ars := ConvertUsdcToArs(Some(Dec(c, 2)), Dec(rate, 0));
    assert Pow10(2 + 0) == 100;
    assert IsRounding(HalfEven, x * 100, 100, ars);
    ExactRounding(HalfEven, x, 100);
    RoundingUnique(HalfEven, x * 100, 100, ars, x);
  }

  /** Converting c·R ARS cents back at the same whole rate gives c: the
      round trip is exact when nothing is lost to rounding. */
  lemma ArsToUsdcWholeRate(c: int, rate: nat)
    requires c != 0 && rate > 0
    ensures ConvertArsToUsdc(Some(Dec(c * rate, 2)), Dec(rate, 0)) == c
  {
    var x := c * rate;
    assert x != 0;
    var back := ConvertArsToUsdc(Some(Dec(x, 2)), Dec(rate, 0));
    var n := x * Pow10(0) * 100;
    var d := rate * Pow10(2);
    assert IsRounding(HalfEven, n, d, back);
    WholeRateProducts(c, rate);
    ExactRounding(HalfEven, c, d);
    RoundingUnique(HalfEven, n, d, back, c);
  }

  /** The numerator and denominator of the ARS-to-USDC quotient at a whole
      rate, for an amount of c·R ARS cents. */
  lemma WholeRateProducts(c: int, rate: nat)
    ensures rate * Pow10(2) == rate * 100
    ensures c * rate * Pow10(0) * 100 == c * (rate * Pow10(2))
  {
    assert Pow10(0) == 1 && Pow10(2) == 100;
    assert c * rate * 1 * 100 == c * (rate * 100);
  }

  /** The two conversions at a whole rate are inverse on whole cents. */
  lemma RoundTripWholeRate(c: int, rate: nat)
    requires c != 0 && rate > 0
    ensures ConvertArsToUsdc(Some(Dec(ConvertUsdcToArs(Some(Dec(c, 2)), Dec(rate, 0)), 2)), Dec(rate, 0)) == c
  {
    UsdcToArsWholeRate(c, rate);
    ArsToUsdcWholeRate(c, rate);
  }

  // ------------------------------------------------------------ rate source

  const BlueUrl: string := "https://dolarapi.com/v1/dolares/blue"
  const OficialUrl: string := "https://dolarapi.com/v1/dolares/oficial"
  const BackupUrl: string := "https://api.exchangerate-api.com/v4/latest/USD"

  /** The quote API queried for a type: "blue" selects the blue quote, any
      other value the official one. */
  function PrimaryUrl(tipo: string): (url: string)
    ensures url == BlueUrl <==> tipo == "blue"
    ensures url == OficialUrl <==> tipo != "blue"
  {
    if tipo == "blue" then BlueUrl else OficialUrl
  }

  /** A field of the quote body: absent, a finite number, or a value that
      raises decimal.InvalidOperation: one Decimal cannot read (null, text),
      or NaN, whose comparison with zero raises. */
  datatype Field = Absent | Number(d: Dec) | NotNumber

  /** What the primary request can end in: a requests exception (connection,
      timeout, HTTP error status, undecodable JSON), a JSON object with its
      "venta" and "compra" fields, or a JSON value that is not an object. */
  datatype PrimaryReply = RequestFailed | Quote(venta: Field, compra: Field) | NotAnObject

  /** What the backup request can end in: `rates["ARS"]` as a number, or
      any exception on the way. */
  datatype BackupReply = BackupRate(rate: Dec) | BackupFailed

  /** The outcome of `_fetch_rate_from_api`: a rate, or an exception that
      escapes it. */
  datatype Fetch = Fetched(rate: Dec) | Raised

  /** `_fetch_from_backup_api`: whatever number the backup returns, with no
      positivity check, or DEFAULT_RATE on any error. */
  function FromBackup(b: BackupReply): (r: Dec)
    ensures b.BackupFailed? ==> r == DefaultRate
    ensures b.BackupRate? ==> r == b.rate
  {
    match b
    case BackupRate(rate) => rate
    case BackupFailed => DefaultRate
  }

  /** `data.get("venta", data.get("compra", DEFAULT_RATE))`. */
  function QuoteField(venta: Field, compra: Field): (f: Field)
    ensures venta != Absent ==> f == venta
    ensures venta == Absent && compra != Absent ==> f == compra
    ensures venta == Absent && compra == Absent ==> f == Number(DefaultRate)
  {
    if venta != Absent then venta
    else if compra != Absent then compra
    else Number(DefaultRate)
  }

  /** `_fetch_rate_from_api`: a positive quote is taken; a non-positive one
      (ValueError) or a request failure goes to the backup; an unreadable
      number or a non-object body raises past it. */
  function FetchRate(p: PrimaryReply, b: BackupReply): (f: Fetch)
    ensures (f.Fetched? && p.Quote? && QuoteField(p.venta, p.compra).Number?
      && QuoteField(p.venta, p.compra).d.IsPositive()) ==> f.rate == QuoteField(p.venta, p.compra).d
    ensures f.Raised? <==> p.NotAnObject? || (p.Quote? && QuoteField(p.venta, p.compra).NotNumber?)
    ensures f.Fetched? && !(p.Quote? && QuoteField(p.venta, p.compra).Number? && QuoteField(p.venta, p.compra).d.IsPositive())
      ==> f.rate == FromBackup(b)
  {
    match p
    case RequestFailed => Fetched(FromBackup(b))
    case NotAnObject => Raised
    case Quote(venta, compra) =>
      match QuoteField(venta, compra)
      case NotNumber => Raised
      case Absent => assert false; Raised
      case Number(d) => if d.IsPositive() then Fetched(d) else Fetched(FromBackup(b))
  }

  /** A primary quote of zero or less is never the result of the fetch. */
  lemma NonPositiveQuoteRejected(venta: Field, compra: Field, b: BackupReply)
    requires QuoteField(venta, compra).Number? && !QuoteField(venta, compra).d.IsPositive()
    ensures FetchRate(Quote(venta, compra), b) == Fetched(FromBackup(b))
  {
  }

  // ------------------------------------------------------------ cache

  const CacheKeyPrefix: string := "usdc_to_ars_rate"

  /** The cache key of a quote type: `f"{CACHE_KEY}_{tipo_cambio}"`. */
  function CacheKey(tipo: string): (k: string)
    ensures StartsWith(k, CacheKeyPrefix + "_")
    ensures k[|CacheKeyPrefix| + 1..] == tipo
  {
    CacheKeyPrefix + "_" + tipo
  }

  /** Different types use different cache entries. */
  lemma CacheKeyInjective(t1: string, t2: string)
    requires CacheKey(t1) == CacheKey(t2)
    ensures t1 == t2
  {
    assert t1 == CacheKey(t1)[|CacheKeyPrefix| + 1..];
  }

  /** The rate cache; a stored 0 reads as falsy, like the float 0.0. */
  type Cache = map<string, Dec>

  /** `get_usdc_to_ars_rate`: a non-zero cached rate is returned as is;
      otherwise the fetched rate is stored and returned; if the fetch raises,
      DEFAULT_RATE is returned and nothing is stored. Never fails. */
  function GetRate(cache: Cache, tipo: string, p: PrimaryReply, b: BackupReply): (r: (Dec, Cache))
    ensures var key := CacheKey(tipo);
      && (key in cache && !cache[key].IsZero() ==> r == (cache[key], cache))
      && (!(key in cache && !cache[key].IsZero()) && FetchRate(p, b).Fetched? ==>
            r == (FetchRate(p, b).rate, cache[key := FetchRate(p, b).rate]))
      && (!(key in cache && !cache[key].IsZero()) && FetchRate(p, b).Raised? ==> r == (DefaultRate, cache))
    ensures forall k :: k in cache && k != CacheKey(tipo) ==> k in r.1 && r.1[k] == cache[k]
  {
    var key := CacheKey(tipo);
    if key in cache && !cache[key].IsZero() then (cache[key], cache)
    else match FetchRate(p, b)
      case Raised => (DefaultRate, cache)
      case Fetched(rate) => (rate, cache[key := rate])
  }

  /** Once a non-zero rate is cached or fetched, the next lookup of the same
      type returns it whatever the APIs would answer. (When the fetch raises,
      the default is returned but not stored, so the next lookup fetches
      again.) */
  lemma SecondLookupHitsCache(cache: Cache, tipo: string, p: PrimaryReply, b: BackupReply,
                              p2: PrimaryReply, b2: BackupReply)
    requires !GetRate(cache, tipo, p, b).0.IsZero()
    requires (CacheKey(tipo) in cache && !cache[CacheKey(tipo)].IsZero()) || FetchRate(p, b).Fetched?
    ensures var (rate, c1) := GetRate(cache, tipo, p, b);
      GetRate(c1, tipo, p2, b2) == (rate, c1)
  {
  }

  /** The rate returned is the cached one, the positive primary quote, the
      backup's, or DEFAULT_RATE. */
  lemma RateOrigin(cache: Cache, tipo: string, p: PrimaryReply, b: BackupReply)
    ensures var r := GetRate(cache, tipo, p, b).0;
      || (CacheKey(tipo) in cache && r == cache[CacheKey(tipo)])
      || (p.Quote? && QuoteField(p.venta, p.compra).Number? && r == QuoteField(p.venta, p.compra).d && r.IsPositive())
      || (b.BackupRate? && r == b.rate)
      || r == DefaultRate
  {
  }

  /** `clear_cache`: drops the "blue" and "oficial" entries and nothing else. */
  function ClearCache(cache: Cache): (r: Cache)
    ensures CacheKey("blue") !in r && CacheKey("oficial") !in r
    ensures forall k :: k in cache && k != CacheKey("blue") && k != CacheKey("oficial") ==> k in r && r[k] == cache[k]
    ensures r.Keys <= cache.Keys
  {
    cache - {CacheKey("blue"), CacheKey("oficial")}
  }

  /** After clearing, a "blue" or "oficial" lookup goes to the APIs again. */
  lemma ClearForcesFetch(cache: Cache, tipo: string, p: PrimaryReply, b: BackupReply)
    requires tipo == "blue" || tipo == "oficial"
    ensures GetRate(ClearCache(cache), tipo, p, b).0 ==
      if FetchRate(p, b).Fetched? then FetchRate(p, b).rate else DefaultRate
  {
  }
}
