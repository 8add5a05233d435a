/** The string-length validator of zoinks-support (`StringValidatorConfig`):
    optional inclusive `minLength` and `maxLength` bounds, compared with the
    length of the string's UTF-8 encoding in bytes. */
module StringValidator {
  import opened Base

  const U32Modulus: int := 0x1_0000_0000

  type U32 = x: int | 0 <= x < U32Modulus

  datatype Config = Config(minLength: Option<U32>, maxLength: Option<U32>)

  /** `Default`: no bound at all. */
  const Default: Config := Config(None, None)

  /** `valid`: each present bound is checked in turn and the first one that
      fails rejects the string. */
  function Valid(c: Config, s: seq<Byte>): (r: bool)
    ensures r <==> ((c.minLength.None? || c.minLength.value <= |s|)
                    && (c.maxLength.None? || |s| <= c.maxLength.value))
  {
    var len := |s|;
    if c.minLength.Some? && c.minLength.value > len then false
    else if c.maxLength.Some? && c.maxLength.value < len then false
    else true
  }

  /** `visit_str`: the string itself when it is valid, otherwise an
      `invalid_value` error carrying the string and the config. */
  function VisitStr(c: Config, s: seq<Byte>): (r: Result<seq<Byte>, DeError<Config>>)
    ensures r.Ok? <==> Valid(c, s)
    ensures r.Ok? ==> r.value == s
    ensures r.Err? ==> r.error == InvalidValue(Str(s), c)
  {
    if Valid(c, s) then Ok(s) else Err(InvalidValue(Str(s), c))
  }

  // ---------------------------------------------------------------------
  // Properties

  /** The default config accepts every string. */
  lemma DefaultAcceptsAll(s: seq<Byte>)
    ensures Valid(Default, s)
    ensures VisitStr(Default, s) == Ok(s)
  {
  }

  /** Both bounds are inclusive: a string exactly as long as a bound is
      accepted by it. */
  lemma BoundsInclusive(n: U32, s: seq<Byte>)
    ensures Valid(Config(Some(n), Some(n)), s) <==> |s| == n
    ensures Valid(Config(Some(n), None), s) <==> n <= |s|
    ensures Valid(Config(None, Some(n)), s) <==> |s| <= n
  {
  }

  /** Crossed bounds reject every string. */
  lemma CrossedBoundsRejectAll(c: Config, s: seq<Byte>)
    requires c.minLength.Some? && c.maxLength.Some? && c.minLength.value > c.maxLength.value
    ensures !Valid(c, s)
    ensures VisitStr(c, s).Err?
  {
  }

  /** `a` bounds nothing that `b` leaves open, and bounds nothing more
      tightly than `b`. */
  predicate Looser(a: Config, b: Config)
  {
    && (a.minLength.None? || (b.minLength.Some? && a.minLength.value <= b.minLength.value))
    && (a.maxLength.None? || (b.maxLength.Some? && a.maxLength.value >= b.maxLength.value))
  }

  /** Dropping or widening a bound never rejects a string that was accepted. */
  lemma LooserAcceptsMore(a: Config, b: Config, s: seq<Byte>)
    requires Looser(a, b)
    requires Valid(b, s)
    ensures Valid(a, s)
  {
  }

  /** Removing either bound is a way of loosening the config. */
  lemma RemovingBoundLoosens(c: Config)
    ensures Looser(c.(minLength := None), c)
    ensures Looser(c.(maxLength := None), c)
  {
  }

  /** Only the length matters, and the accepted lengths form an interval. */
  lemma AcceptedLengthsConvex(c: Config, s: seq<Byte>, t: seq<Byte>, u: seq<Byte>)
    requires Valid(c, s) && Valid(c, t)
    requires |s| <= |u| <= |t|
    ensures Valid(c, u)
  {
  }
}
