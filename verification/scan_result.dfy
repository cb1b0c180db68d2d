/**
 * The result value of one probe (`ScanResult` in network_scanner.py) and the
 * `Protocol` enumeration it refers to.
 *
 * Python compares a result's `response_time` as a float, so `Float` keeps the
 * values whose behaviour differs from a real number's: infinities and NaN,
 * which is never equal to anything, itself included.
 */
module ScanResults {

  /** The four supported protocols. */
  datatype Protocol = HTTP | HTTPS | FTP | SSH

  /**
   * What a caller may hand to `scan`: a `Protocol` member, or any other value
   * (identified here by a tag), which the scanner reports as unsupported.
   */
  datatype Selector = Supported(protocol: Protocol) | Foreign(tag: string)

  /** The status strings a result can carry. */
  datatype Status = Up | Down | Unsupported | Unknown

  /** A Python float, abstracted to the distinctions this model needs. */
  datatype Float = Finite(value: real) | PosInf | NegInf | NaN

  const Zero: Float := Finite(0.0)

  /** Python's float `==`: NaN compares unequal to everything. */
  predicate FloatEq(x: Float, y: Float) {
    match (x, y)
    case (Finite(a), Finite(b)) => a == b
    case (PosInf, PosInf) => true
    case (NegInf, NegInf) => true
    case _ => false
  }

  /** Python's truth value of a float: only zero is false. */
  predicate Truthy(x: Float) {
    x != Zero
  }

  /**
   * A scan result. A freshly constructed one is `UNKNOWN` and has response
   * time `0.0` until a probe fills them in.
   */
  datatype ScanResult = ScanResult(
    protocol: Selector,
    destination: string,
    status: Status := Unknown,
    responseTime: Float := Zero)

  /** The right operand of `==`, `!=` or `|`: a `ScanResult` or some other object. */
  datatype Object = AScanResult(result: ScanResult) | NotAScanResult

  /** What `a | b` evaluates to: a response time, or `NotImplemented` for a foreign operand. */
  datatype OrResult = Time(time: Float) | NotImplemented

  /** `ScanResult.__eq__`: field-wise comparison, false against any other kind of object. */
  predicate Eq(self: ScanResult, other: Object) {
    match other
    case NotAScanResult => false
    case AScanResult(that) =>
      && self.protocol == that.protocol
      && self.destination == that.destination
      && self.status == that.status
      && FloatEq(self.responseTime, that.responseTime)
  }

  /** `ScanResult.__ne__`. */
  predicate Ne(self: ScanResult, other: Object) {
    !Eq(self, other)
  }

  /** `ScanResult.__or__`: `self.response_time or other.response_time`. */
  function Or(self: ScanResult, other: Object): (r: OrResult)
    ensures r.NotImplemented? <==> other.NotAScanResult?
    ensures r.Time? && Truthy(self.responseTime) ==> r.time == self.responseTime
    ensures r.Time? && !Truthy(self.responseTime) ==> r.time == other.result.responseTime
    ensures r.Time? ==> (Truthy(r.time) <==> Truthy(self.responseTime) || Truthy(other.result.responseTime))
  {
    match other
    case NotAScanResult => NotImplemented
    case AScanResult(that) => Time(OrTime(self.responseTime, that.responseTime))
  }

  /** Python's `x or y` on two floats. */
  function OrTime(x: Float, y: Float): Float {
    if Truthy(x) then x else y
  }

  /** A result built from protocol and destination alone is `UNKNOWN` with time `0.0`. */
  lemma Defaults(p: Selector, d: string)
    ensures ScanResult(p, d).status == Unknown
    ensures ScanResult(p, d).responseTime == Zero
    ensures ScanResult(p, d) == ScanResult(p, d, Unknown, Zero)
  {
  }

  /** Float equality is structural equality except that NaN is unequal to itself. */
  lemma FloatEqIsEquality(x: Float, y: Float)
    ensures FloatEq(x, y) <==> x == y && !x.NaN?
  {
  }

  /**
   * `==` on two results holds exactly when they are the same value and the
   * response time is not NaN; in particular changing any one field breaks it.
   */
  lemma EqIffSameValue(a: ScanResult, b: ScanResult)
    ensures Eq(a, AScanResult(b)) <==> a == b && !a.responseTime.NaN?
  {
    FloatEqIsEquality(a.responseTime, b.responseTime);
  }

  /** `==` against anything that is not a `ScanResult` is false, so `!=` is true. */
  lemma EqForeignIsFalse(a: ScanResult)
    ensures !Eq(a, NotAScanResult) && Ne(a, NotAScanResult)
  {
  }

  /** `!=` is the exact negation of `==`, which is symmetric and transitive among results. */
  lemma NeNegatesEq(a: ScanResult, b: ScanResult, c: ScanResult)
    ensures Ne(a, AScanResult(b)) <==> a != b || a.responseTime.NaN?
    ensures Eq(a, AScanResult(b)) <==> Eq(b, AScanResult(a))
    ensures Eq(a, AScanResult(b)) && Eq(b, AScanResult(c)) ==> Eq(a, AScanResult(c))
  {
    EqIffSameValue(a, b);
    EqIffSameValue(b, a);
    EqIffSameValue(b, c);
    EqIffSameValue(a, c);
  }

  /** A result whose response time is NaN is not equal to itself. */
  lemma NaNResultUnequalToItself(p: Selector, d: string, s: Status)
    ensures Ne(ScanResult(p, d, s, NaN), AScanResult(ScanResult(p, d, s, NaN)))
  {
  }

  /**
   * The `or` behind `|`: the first non-zero time wins, zero is its identity on
   * both sides, it is associative and idempotent, and it is zero only when
   * both operands are.
   */
  lemma OrTimeLaws(x: Float, y: Float, z: Float)
    ensures OrTime(Zero, x) == x && OrTime(x, Zero) == x
    ensures OrTime(OrTime(x, y), z) == OrTime(x, OrTime(y, z))
    ensures OrTime(x, x) == x
    ensures OrTime(x, y) == Zero <==> x == Zero && y == Zero
  {
  }
}
