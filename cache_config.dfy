/**
 * The options part of the rewritten cache class (src/cache.ts): the setters
 * of max, ttl and ttlResolution, and the arithmetic that turns a ttl and a
 * resolution into the expiry threshold #expires.
 *
 * The timestring library (MS) is the function `ms`, given to the
 * constructor: `ms(s)` is MS(s, "ms"), a number or the error it throws.
 * The timer the ttl setter starts is not modelled.
 */
module CacheConfig {
  import opened Js
  import opened UnitParser

  /** The options a cache is built with: Undefined stands for an absent max or ttl, None for an absent ttlResolution key. */
  datatype Options = Options(max: Value, ttl: Value, ttlResolution: Option<Value>)

  const MaxTypeError := "Cache: \"max\" expected positive number or string"
  const IllegalMax := "Cache: Illegal \"max\" value: "
  const TtlError := "Cache: \"ttl\" expected string or positive integer"
  const ResolutionError := "Cache: \"ttlResolution\" expected positive integer or string"

  /**
   * What the max setter stores in #max, or what it throws (src/cache.ts:74-82):
   * a number must not be <= 0 (so NaN and Infinity pass), a string goes
   * through parseUnit and is not checked again, anything else throws.
   */
  function EvalMax(v: Value): (r: Result<Number>)
    ensures v.Num? ==> (r.Ok? <==> !AtMostZero(v.n)) && (r.Ok? ==> r.value == v.n)
    ensures v.Str? ==> (r.Ok? <==> Scan(v.s).Some?) && r == ParseUnit(v)
    ensures !v.Num? && !v.Str? ==> r == Throws(MaxTypeError)
  {
    match v
    case Num(n) => if AtMostZero(n) then Throws(IllegalMax) else Ok(n)
    case Str(_) => ParseUnit(v)
    case _ => Throws(MaxTypeError)
  }

  /** A max of 0 is refused as a number but taken as the string "0", which parseUnit turns into 0. */
  lemma MaxZeroOnlyAsString()
    ensures EvalMax(Num(Finite(0.0))) == Throws(IllegalMax)
    ensures EvalMax(Str("0")) == Ok(Finite(0.0))
  {
    ParseZero();
  }

  /** parseUnit("0") is 0: the string matches with "0" as the number and no suffix. */
  lemma ParseZero()
    ensures ParseUnit(Str("0")) == Ok(Finite(0.0))
  {
    ScanZero();
    NumberZero();
    assert Multiplier("") == Some(1);
  }

  lemma ScanZero()
    ensures Scan("0") == Some(Match("0", ""))
  {
    ScanComplete("", "0", "", "", "");
    assert "" + "0" + "" + "" + "" == "0";
  }

  lemma NumberZero()
    ensures ToNumber(StripUnderscores("0")) == Finite(0.0)
  {
    assert StripUnderscores("0") == "0";
    assert DigitsValue("0") == DigitsValue("") * 10 + ('0' - '0') as nat;
  }

  /**
   * What the ttl setter stores in #ttl, or what it throws (src/cache.ts:103-108):
   * a string goes through MS; the value must be a positive safe integer or
   * Infinity.
   */
  function EvalTtl(v: Value, ms: string -> Result<Number>): (r: Result<Number>)
    ensures r.Ok? ==> IsPositiveIntOrInfinity(r.value)
    ensures v.Num? ==> (r.Ok? <==> IsPositiveIntOrInfinity(v.n)) && (r.Ok? ==> r.value == v.n)
    ensures v.Str? ==> (r.Ok? <==> ms(v.s).Ok? && IsPositiveIntOrInfinity(ms(v.s).value))
    ensures v.Str? && r.Ok? ==> r.value == ms(v.s).value
    ensures !v.Num? && !v.Str? ==> r == Throws(TtlError)
  {
    var value := match v
      case Str(s) => ms(s)
      case Num(n) => Ok(n)
      case _ => Throws(TtlError);
    match value
    case Throws(e) => Throws(e)
    case Ok(n) => if IsPositiveIntOrInfinity(n) then Ok(n) else Throws(TtlError)
  }

  /**
   * What the ttlResolution setter stores in #ttlResolution (None for
   * undefined), or what it throws (src/cache.ts:144-152): null and undefined
   * unset it, a string goes through MS and is kept whatever number it gives,
   * a number must be a positive safe integer.
   */
  function EvalResolution(v: Value, ms: string -> Result<Number>): (r: Result<Option<Number>>)
    ensures IsNullish(v) ==> r == Ok(None)
    ensures v.Num? ==> (r.Ok? <==> IsSafeInteger(v.n) && v.n.r > 0.0) && (r.Ok? ==> r.value == Some(v.n))
    ensures v.Str? ==> (r.Ok? <==> ms(v.s).Ok?) && (r.Ok? ==> r.value == Some(ms(v.s).value))
    ensures v.Other? ==> r == Throws(ResolutionError)
  {
    match v
    case Undefined => Ok(None)
    case Null => Ok(None)
    case Str(s) =>
      (match ms(s)
       case Ok(n) => Ok(Some(n))
       case Throws(e) => Throws(e))
    case Num(n) => if IsSafeInteger(n) && n.r > 0.0 then Ok(Some(n)) else Throws(ResolutionError)
    case Other => Throws(ResolutionError)
  }

  /**
   * The resolution the ttl setter uses for a finite ttl (src/cache.ts:116-119):
   * the stored one, unless it is unset or greater than ttl; then
   * Math.ceil(ttl / 10), the least integer at least a tenth of ttl.
   */
  function EffectiveResolution(ttl: int, stored: Option<Number>): (r: Number)
    requires ttl > 0
    ensures stored.Some? && !Greater(stored.value, Finite(ttl as real)) ==> r == stored.value
    ensures stored.None? || Greater(stored.value, Finite(ttl as real)) ==>
      && r.Finite? && r.r == r.r.Floor as real
      && (r.r - 1.0) * 10.0 < ttl as real <= r.r * 10.0
      && 1.0 <= r.r <= ttl as real
  {
    var fallback := Finite(Ceil(ttl as real / 10.0) as real);
    match stored
    case None => fallback
    case Some(x) => if Greater(x, Finite(ttl as real)) then fallback else x
  }

  /** `a / y` for a positive integer a (a positive zero is assumed for 0). */
  function Quotient(a: int, y: Number): Number
    requires a > 0
  {
    match y
    case Finite(b) => if b == 0.0 then PosInf else Finite(a as real / b)
    case PosInf => Finite(0.0)
    case NegInf => Finite(0.0)
    case NaN => NaN
  }

  /** Math.floor */
  function FloorOf(x: Number): Number {
    match x
    case Finite(r) => Finite(r.Floor as real)
    case _ => x
  }

  /** `a - y` for an integer a. */
  function Minus(a: int, y: Number): Number {
    match y
    case Finite(b) => Finite(a as real - b)
    case PosInf => NegInf
    case NegInf => PosInf
    case NaN => NaN
  }

  /** #expires for a finite ttl (src/cache.ts:121): now less the number of whole resolution ticks in ttl. */
  function Threshold(now: int, ttl: int, resolution: Number): Number
    requires ttl > 0
  {
    Minus(now, FloorOf(Quotient(ttl, resolution)))
  }

  /**
   * With a resolution from 1 to ttl, #expires is a whole number from ttl to
   * one tick in the past.
   */
  lemma ThresholdWithin(now: int, ttl: int, resolution: real)
    requires 1.0 <= resolution <= ttl as real
    ensures var e := Threshold(now, ttl, Finite(resolution));
      e.Finite? && e.r == e.r.Floor as real && (now - ttl) as real <= e.r <= (now - 1) as real
  {
    QuotientWithin(ttl, resolution);
    var q := ttl as real / resolution;
    assert Quotient(ttl, Finite(resolution)) == Finite(q);
    var f := q.Floor;
    assert 1 <= f <= ttl;
    assert Threshold(now, ttl, Finite(resolution)) == Finite((now - f) as real);
    assert ((now - f) as real).Floor == now - f;
  }

  /**
   * For a resolution left unset or at least 1 (every one the number branch
   * of the setter accepts), #expires is a whole number from ttl to one tick
   * in the past.
   */
  lemma ExpiresWindow(now: int, ttl: int, stored: Option<Number>)
    requires ttl > 0 && (stored.None? || (stored.value.Finite? && 1.0 <= stored.value.r))
    ensures var e := Threshold(now, ttl, EffectiveResolution(ttl, stored));
      e.Finite? && e.r == e.r.Floor as real && (now - ttl) as real <= e.r <= (now - 1) as real
  {
    var r := EffectiveResolution(ttl, stored);
    ThresholdWithin(now, ttl, r.r);
  }

  /**
   * The resolutions the number branch of the setter refuses but MS may give:
   * 0 makes #expires -Infinity, so that no entry is ever older than it; a
   * negative one puts it in the future; NaN gives NaN.
   */
  lemma ThresholdDegenerate(now: int, ttl: int, resolution: Number)
    requires ttl > 0
    ensures var e := Threshold(now, ttl, resolution);
      && (resolution == Finite(0.0) ==> e == NegInf)
      && (resolution.Finite? && resolution.r < 0.0 ==> e.Finite? && e.r > now as real)
      && (resolution.NaN? ==> e.NaN?)
  {
    if resolution.Finite? && resolution.r < 0.0 {
      QuotientNegative(ttl, resolution.r);
    }
  }

  /** The sign of a product with a positive factor is the sign of the other factor. */
  lemma ProductSign(x: real, b: real)
    requires b > 0.0
    ensures x * b > 0.0 ==> x > 0.0
    ensures x * b >= 0.0 ==> x >= 0.0
    ensures x * b < 0.0 ==> x < 0.0
  {
  }

  /** A positive integer divided by a number from 1 to itself lies from 1 to itself. */
  lemma QuotientWithin(a: int, b: real)
    requires a > 0 && 1.0 <= b <= a as real
    ensures 1.0 <= a as real / b <= a as real
  {
    var q := a as real / b;
    assert (q - 1.0) * b == a as real - b;
    ProductSign(q - 1.0, b);
    assert (a as real - q) == q * (b - 1.0);
    ProductSign(b - 1.0, q);
  }

  /** A positive integer divided by a negative number is negative. */
  lemma QuotientNegative(a: int, b: real)
    requires a > 0 && b < 0.0
    ensures a as real / b < 0.0
  {
    var q := a as real / b;
    assert q * -b == -(a as real);
    ProductSign(q, -b);
  }

  /**
   * With no resolution set (or one greater than ttl), ttl is split into at
   * most ten ticks: #expires lies at most ten ticks back, and at least five
   * unless ttl itself is fewer.
   */
  lemma DefaultTicks(now: int, ttl: int)
    requires ttl > 0
    ensures var e := Threshold(now, ttl, EffectiveResolution(ttl, None));
      && e.Finite?
      && now as real - e.r <= 10.0
      && (now as real - e.r >= 5.0 || now as real - e.r == ttl as real)
  {
    var c := EffectiveResolution(ttl, None).r;
    var q := ttl as real / c;
    assert Threshold(now, ttl, Finite(c)) == Finite((now - q.Floor) as real);
    TickCount(ttl as real, c);
    assert c == 1.0 ==> q == ttl as real;
  }

  /** Ticks of a whole resolution c with (c - 1) * 10 < t <= c * 10: at most ten, and at least five unless c is 1. */
  lemma TickCount(t: real, c: real)
    requires 1.0 <= c && c == c.Floor as real && (c - 1.0) * 10.0 < t <= c * 10.0
    ensures t / c <= 10.0
    ensures c == 1.0 || t / c >= 5.0
  {
    var q := t / c;
    assert (10.0 - q) * c == 10.0 * c - t;
    ProductSign(10.0 - q, c);
    if c != 1.0 {
      assert c >= 2.0;
      assert (q - 5.0) * c == t - 5.0 * c;
      ProductSign(q - 5.0, c);
    }
  }

  /**
   * A cache as configured by src/cache.ts. The getters max, evalMax, ttl,
   * evalTtl, ttlResolution and evalTtlResolution read maxRaw, max, ttlRaw,
   * ttl, resolutionRaw and resolution.
   */
  class Cache {
    const ms: string -> Result<Number>
    var maxRaw: Value
    var max: Number
    var ttlRaw: Value
    var ttl: Number
    var resolutionRaw: Value
    var resolution: Option<Number>
    var now: int
    var expires: Number

    /**
     * Each evaluated option is what its setter makes of the raw one, so the
     * ttl is a positive safe integer or Infinity; for a finite ttl, #expires
     * is the threshold of the current resolution.
     */
    ghost predicate Valid()
      reads this
    {
      Evaluated() && (ttl.Finite? ==> expires == Threshold(now, ttl.r.Floor, EffectiveResolution(ttl.r.Floor, resolution)))
    }

    /** Each evaluated option is what its setter makes of the raw one. */
    ghost predicate Evaluated()
      reads this
    {
      && EvalMax(maxRaw) == Ok(max)
      && EvalTtl(ttlRaw, ms) == Ok(ttl)
      && EvalResolution(resolutionRaw, ms) == Ok(resolution)
    }

    /** The initial fields (src/cache.ts:19-45). */
    constructor(ms: string -> Result<Number>)
      ensures Valid() && this.ms == ms
      ensures maxRaw == Num(PosInf) && max == PosInf && ttlRaw == Num(PosInf) && ttl == PosInf
      ensures resolutionRaw == Undefined && resolution == None && now == 0 && expires == Finite(-1.0)
    {
      this.ms := ms;
      maxRaw, max := Num(PosInf), PosInf;
      ttlRaw, ttl := Num(PosInf), PosInf;
      resolutionRaw, resolution := Undefined, None;
      now, expires := 0, Finite(-1.0);
    }

    /** set max (src/cache.ts:74-85): both fields, or a throw that leaves them. */
    method SetMax(v: Value) returns (r: Result<()>)
      requires Valid()
      modifies this`maxRaw, this`max
      ensures Valid()
      ensures r.Ok? <==> EvalMax(v).Ok?
      ensures r.Ok? ==> maxRaw == v && max == EvalMax(v).value
      ensures r.Throws? ==> r.message == EvalMax(v).message && maxRaw == old(maxRaw) && max == old(max)
    {
      match EvalMax(v)
      case Throws(e) =>
        r := Throws(e);
      case Ok(n) =>
        maxRaw, max := v, n;
        r := Ok(());
    }

    /**
     * set ttl (src/cache.ts:101-131): both fields and, for a finite ttl, the
     * threshold at the resolution in force; Infinity leaves #expires as it was.
     */
    method SetTtl(v: Value) returns (r: Result<()>)
      requires Evaluated()
      modifies this`ttlRaw, this`ttl, this`expires
      ensures Evaluated()
      ensures r.Ok? || old(Valid()) ==> Valid()
      ensures r.Ok? <==> EvalTtl(v, ms).Ok?
      ensures r.Ok? ==> ttlRaw == v && ttl == EvalTtl(v, ms).value
      ensures r.Ok? && ttl.Finite? ==> expires == Threshold(now, ttl.r.Floor, EffectiveResolution(ttl.r.Floor, resolution))
      ensures r.Ok? && !ttl.Finite? ==> expires == old(expires)
      ensures r.Throws? ==> r.message == EvalTtl(v, ms).message && ttlRaw == old(ttlRaw) && ttl == old(ttl) && expires == old(expires)
    {
      match EvalTtl(v, ms)
      case Throws(e) =>
        r := Throws(e);
      case Ok(n) =>
        ttlRaw, ttl := v, n;
        if n.Finite? {
          var t := n.r.Floor;
          expires := Threshold(now, t, EffectiveResolution(t, resolution));
        }
        r := Ok(());
    }

    /**
     * set ttlResolution (src/cache.ts:143-156): both fields, then for a finite
     * ttl the ttl setter again with #ttl, which recomputes #expires and
     * replaces the raw ttl with the evaluated one.
     */
    method SetResolution(v: Value) returns (r: Result<()>)
      requires Valid()
      modifies this`resolutionRaw, this`resolution, this`ttlRaw, this`ttl, this`expires
      ensures Valid()
      ensures r.Ok? <==> EvalResolution(v, ms).Ok?
      ensures r.Ok? ==> resolutionRaw == v && resolution == EvalResolution(v, ms).value && ttl == old(ttl)
      ensures r.Ok? && ttl.Finite? ==> ttlRaw == Num(ttl)
      ensures r.Ok? && !ttl.Finite? ==> ttlRaw == old(ttlRaw) && expires == old(expires)
      ensures r.Throws? ==> r.message == EvalResolution(v, ms).message
      ensures r.Throws? ==> resolutionRaw == old(resolutionRaw) && resolution == old(resolution)
      ensures r.Throws? ==> ttlRaw == old(ttlRaw) && ttl == old(ttl) && expires == old(expires)
    {
      match EvalResolution(v, ms)
      case Throws(e) =>
        r := Throws(e);
      case Ok(n) =>
        resolutionRaw, resolution := v, n;
        if ttl != PosInf {
          var again := SetTtl(Num(ttl));
          assert again.Ok?;
        }
        r := Ok(());
    }

    /**
     * The option part of the constructor (src/cache.ts:50-54): max, ttl and
     * ttlResolution in that order, each only when given, stopping at the
     * first setter that throws.
     */
    method Configure(o: Options) returns (r: Result<()>)
      requires Valid()
      modifies this`maxRaw, this`max, this`ttlRaw, this`ttl, this`resolutionRaw, this`resolution, this`expires
      ensures Valid()
      ensures r.Ok? <==> Accepts(o, ms)
      ensures r.Ok? ==> maxRaw == (if IsNullish(o.max) then old(maxRaw) else o.max)
      ensures r.Ok? ==> ttl == (if IsNullish(o.ttl) then old(ttl) else EvalTtl(o.ttl, ms).value)
      ensures r.Ok? ==> resolutionRaw == (if o.ttlResolution.None? then old(resolutionRaw) else o.ttlResolution.value)
      ensures r.Ok? && o.ttlResolution.None? ==> ttlRaw == (if IsNullish(o.ttl) then old(ttlRaw) else o.ttl)
      ensures r.Ok? && o.ttlResolution.Some? && ttl.Finite? ==> ttlRaw == Num(ttl)
      ensures r.Ok? && !ttl.Finite? ==> ttlRaw == (if IsNullish(o.ttl) then old(ttlRaw) else o.ttl)
      ensures r.Throws? ==> r.message == FirstError(o, ms)
      ensures !IsNullish(o.max) && EvalMax(o.max).Throws? ==> r == Throws(EvalMax(o.max).message) && unchanged(this)
    {
      if !IsNullish(o.max) {
        r := SetMax(o.max);
        if r.Throws? {
          return;
        }
      }
      if !IsNullish(o.ttl) {
        r := SetTtl(o.ttl);
        if r.Throws? {
          return;
        }
      }
      if o.ttlResolution.Some? {
        r := SetResolution(o.ttlResolution.value);
        if r.Throws? {
          return;
        }
      }
      r := Ok(());
    }
  }

  /** Whether every option given is one its setter takes. */
  predicate Accepts(o: Options, ms: string -> Result<Number>) {
    && (IsNullish(o.max) || EvalMax(o.max).Ok?)
    && (IsNullish(o.ttl) || EvalTtl(o.ttl, ms).Ok?)
    && (o.ttlResolution.None? || EvalResolution(o.ttlResolution.value, ms).Ok?)
  }

  /** The message of the first setter that refuses its option, in the order max, ttl, ttlResolution. */
  function FirstError(o: Options, ms: string -> Result<Number>): string
    requires !Accepts(o, ms)
  {
    if !IsNullish(o.max) && EvalMax(o.max).Throws? then EvalMax(o.max).message
    else if !IsNullish(o.ttl) && EvalTtl(o.ttl, ms).Throws? then EvalTtl(o.ttl, ms).message
    else EvalResolution(o.ttlResolution.value, ms).message
  }

  /**
   * new LRU_TTL(options) (src/cache.ts:49-58): a cache whose given options
   * replace the initial ones, or the first error a setter throws.
   */
  method New(options: Option<Options>, ms: string -> Result<Number>) returns (r: Result<Cache>)
    ensures r.Ok? <==> options.None? || Accepts(options.value, ms)
    ensures r.Ok? ==> fresh(r.value) && r.value.Valid() && r.value.ms == ms && r.value.now == 0
    ensures r.Ok? && options.None? ==>
      r.value.maxRaw == Num(PosInf) && r.value.ttlRaw == Num(PosInf) && r.value.resolutionRaw == Undefined
    ensures r.Ok? && options.Some? ==>
      var o, c := options.value, r.value;
      && c.maxRaw == (if IsNullish(o.max) then Num(PosInf) else o.max)
      && c.ttl == (if IsNullish(o.ttl) then PosInf else EvalTtl(o.ttl, ms).value)
      && c.resolutionRaw == (if o.ttlResolution.None? then Undefined else o.ttlResolution.value)
      && c.ttlRaw == (if o.ttlResolution.Some? && c.ttl.Finite? then Num(c.ttl)
                      else if IsNullish(o.ttl) then Num(PosInf) else o.ttl)
    ensures r.Throws? ==> options.Some? && r.message == FirstError(options.value, ms)
  {
    var c := new Cache(ms);
    if options.Some? {
      var e := c.Configure(options.value);
      if e.Throws? {
        return Throws(e.message);
      }
    }
    r := Ok(c);
  }
}
