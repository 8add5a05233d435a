/** The numeric-bounds validator of zoinks-support (`NumericValidatorConfig`):
    optional `minimum`, `exclusiveMinimum`, `maximum` and `exclusiveMaximum`
    bounds. Values are modelled as reals: no NaN, no rounding. */
module NumericValidator {
  import opened Base

  datatype Config = Config(
    min: Option<real>,
    exclusiveMin: Option<real>,
    max: Option<real>,
    exclusiveMax: Option<real>)

  /** `Default`: no bound at all. */
  const Default: Config := Config(None, None, None, None)

  /** `valid`: each present bound is checked in turn and the first one that
      fails rejects the value. */
  function Valid(c: Config, n: real): (r: bool)
    ensures r <==> ((c.min.None? || c.min.value <= n)
                    && (c.exclusiveMin.None? || c.exclusiveMin.value < n)
                    && (c.max.None? || n <= c.max.value)
                    && (c.exclusiveMax.None? || n < c.exclusiveMax.value))
  {
    if c.min.Some? && c.min.value > n then false
    else if c.exclusiveMin.Some? && c.exclusiveMin.value >= n then false
    else if c.max.Some? && c.max.value < n then false
    else if c.exclusiveMax.Some? && c.exclusiveMax.value <= n then false
    else true
  }

  /** `visit_f64`: the value itself when it is valid, otherwise an
      `invalid_value` error carrying it as a float. */
  function VisitF64(c: Config, n: real): (r: Result<real, DeError<Config>>)
    ensures r.Ok? <==> Valid(c, n)
    ensures r.Ok? ==> r.value == n
    ensures r.Err? ==> r.error == InvalidValue(Float(n), c)
  {
    if Valid(c, n) then Ok(n) else Err(InvalidValue(Float(n), c))
  }

  const I64Min: int := -0x8000_0000_0000_0000
  const I64Max: int := 0x7FFF_FFFF_FFFF_FFFF
  const U64Max: int := 0xFFFF_FFFF_FFFF_FFFF

  type I64 = x: int | I64Min <= x <= I64Max
  type U64 = x: int | 0 <= x <= U64Max

  /** `visit_i64`: the integer converted to a float is validated and
      returned; a refused value is reported as the signed integer it was. */
  function VisitI64(c: Config, n: I64): (r: Result<real, DeError<Config>>)
    ensures r.Ok? <==> Valid(c, n as real)
    ensures r.Ok? ==> r.value == n as real
    ensures r.Err? ==> r.error == InvalidValue(Signed(n), c)
  {
    var x := n as real;
    if Valid(c, x) then Ok(x) else Err(InvalidValue(Signed(n), c))
  }

  /** `visit_u64`, likewise, reporting the unsigned integer. */
  function VisitU64(c: Config, n: U64): (r: Result<real, DeError<Config>>)
    ensures r.Ok? <==> Valid(c, n as real)
    ensures r.Ok? ==> r.value == n as real
    ensures r.Err? ==> r.error == InvalidValue(Unsigned(n), c)
  {
    var x := n as real;
    if Valid(c, x) then Ok(x) else Err(InvalidValue(Unsigned(n), c))
  }

  // ---------------------------------------------------------------------
  // Properties

  /** The default config accepts every value. */
  lemma DefaultAcceptsAll(n: real)
    ensures Valid(Default, n)
    ensures VisitF64(Default, n) == Ok(n)
  {
  }

  /** `minimum` and `maximum` accept their own value; `exclusiveMinimum`
      and `exclusiveMaximum` reject theirs. */
  lemma BoundaryValues(b: real)
    ensures Valid(Default.(min := Some(b)), b)
    ensures Valid(Default.(max := Some(b)), b)
    ensures !Valid(Default.(exclusiveMin := Some(b)), b)
    ensures !Valid(Default.(exclusiveMax := Some(b)), b)
  {
  }

  /** `a` bounds nothing that `b` leaves open, and bounds nothing more
      tightly than `b`. */
  predicate Looser(a: Config, b: Config)
  {
    && (a.min.None? || (b.min.Some? && a.min.value <= b.min.value))
    && (a.exclusiveMin.None? || (b.exclusiveMin.Some? && a.exclusiveMin.value <= b.exclusiveMin.value))
    && (a.max.None? || (b.max.Some? && a.max.value >= b.max.value))
    && (a.exclusiveMax.None? || (b.exclusiveMax.Some? && a.exclusiveMax.value >= b.exclusiveMax.value))
  }

  /** Dropping or widening a bound never rejects a value that was accepted. */
  lemma LooserAcceptsMore(a: Config, b: Config, n: real)
    requires Looser(a, b)
    requires Valid(b, n)
    ensures Valid(a, n)
  {
  }

  /** Removing any one bound is a way of loosening the config. */
  lemma RemovingBoundLoosens(c: Config)
    ensures Looser(c.(min := None), c)
    ensures Looser(c.(exclusiveMin := None), c)
    ensures Looser(c.(max := None), c)
    ensures Looser(c.(exclusiveMax := None), c)
  {
  }

  /** The accepted values form an interval. */
  lemma AcceptedConvex(c: Config, lo: real, hi: real, n: real)
    requires Valid(c, lo) && Valid(c, hi)
    requires lo <= n <= hi
    ensures Valid(c, n)
  {
  }

  /** Bounds that leave no room between them reject every value. */
  lemma EmptyRangeRejectsAll(c: Config, n: real)
    requires || (c.min.Some? && c.max.Some? && c.min.value > c.max.value)
             || (c.exclusiveMin.Some? && c.max.Some? && c.exclusiveMin.value >= c.max.value)
             || (c.min.Some? && c.exclusiveMax.Some? && c.min.value >= c.exclusiveMax.value)
             || (c.exclusiveMin.Some? && c.exclusiveMax.Some? && c.exclusiveMin.value >= c.exclusiveMax.value)
    ensures !Valid(c, n)
  {
  }

  /** An integer is judged by its value: `visit_i64` and `visit_u64` agree
      with `visit_f64` on the same number. */
  lemma IntegersAgreeWithFloats(c: Config, n: I64, m: U64)
    ensures VisitI64(c, n).Ok? <==> VisitF64(c, n as real).Ok?
    ensures VisitU64(c, m).Ok? <==> VisitF64(c, m as real).Ok?
  {
  }
}
