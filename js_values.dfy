/**
 * The JavaScript values the theme's template helpers receive, and the
 * conversions of ECMA-262 the helpers rely on: typeof, truthiness
 * (ToBoolean), ToString, ToPrimitive, ToNumber and loose equality (`==`,
 * IsLooselyEqual in section 7.2 of ECMA-262).
 *
 * Numbers are restricted to integers; arrays and plain objects carry a
 * reference so that two distinct objects with equal contents stay distinct.
 */
module JsValues {
  import opened Results
  import opened Decimal

  datatype JsValue =
    | Undefined
    | Null
    | Bool(b: bool)
    | Int(n: int)
    | Str(s: string)
    | Arr(ref: nat, elems: seq<JsValue>)
    | Obj(ref: nat)

  /** The errors a helper can raise on a value outside its domain. */
  datatype JsError = TypeError

  /** A Number as ToNumber produces it: an integer, or NaN. */
  datatype Num = Number(n: int) | NaN

  /** The language types of section 6.1 of ECMA-262 that the model covers. */
  datatype JsType = UndefinedType | NullType | BooleanType | NumberType | StringType | ObjectType

  function TypeOfValue(v: JsValue): JsType {
    match v
    case Undefined => UndefinedType
    case Null => NullType
    case Bool(_) => BooleanType
    case Int(_) => NumberType
    case Str(_) => StringType
    case Arr(_, _) => ObjectType
    case Obj(_) => ObjectType
  }

  predicate IsObject(v: JsValue) {
    v.Arr? || v.Obj?
  }

  predicate IsNullish(v: JsValue) {
    v.Undefined? || v.Null?
  }

  /** The `typeof` operator: null is reported as "object". */
  function TypeOf(v: JsValue): (t: string)
    ensures t == "object" <==> v.Null? || IsObject(v)
  {
    match v
    case Undefined => "undefined"
    case Null => "object"
    case Bool(_) => "boolean"
    case Int(_) => "number"
    case Str(_) => "string"
    case Arr(_, _) => "object"
    case Obj(_) => "object"
  }

  /** ToBoolean: what `if (v)` tests. */
  predicate Truthy(v: JsValue) {
    match v
    case Undefined => false
    case Null => false
    case Bool(b) => b
    case Int(n) => n != 0
    case Str(s) => s != ""
    case Arr(_, _) => true
    case Obj(_) => true
  }

  /**
   * ToString. An array prints as its elements joined by ","
   * (Array.prototype.toString), with undefined and null elements printed
   * as the empty string; a plain object prints as "[object Object]".
   */
  function ToString(v: JsValue): string
    decreases v
  {
    match v
    case Undefined => "undefined"
    case Null => "null"
    case Bool(b) => if b then "true" else "false"
    case Int(n) => IntToDecimal(n)
    case Str(s) => s
    case Arr(_, es) =>
      Join(seq(|es|, i requires 0 <= i < |es| => if IsNullish(es[i]) then "" else ToString(es[i])), ",")
    case Obj(_) => "[object Object]"
  }

  /** The parts separated by `sep`, in order. */
  function Join(parts: seq<string>, sep: string): string {
    if |parts| == 0 then ""
    else if |parts| == 1 then parts[0]
    else parts[0] + sep + Join(parts[1..], sep)
  }

  /** ToPrimitive with no hint: objects become their string form, primitives stay. */
  function ToPrimitive(v: JsValue): (p: JsValue)
    ensures !IsObject(p)
    ensures !IsObject(v) ==> p == v
  {
    if IsObject(v) then Str(ToString(v)) else v
  }

  /** WhiteSpace and LineTerminator code points that StringToNumber trims. */
  predicate IsJsSpace(c: char) {
    c == '\t' || c == '\n' || c == '\U{B}' || c == '\U{C}' || c == '\r' || c == ' '
    || c == '\U{A0}' || c == '\U{2028}' || c == '\U{2029}' || c == '\U{FEFF}'
  }

  function TrimStart(s: string): (t: string)
    ensures |t| <= |s| && t == s[|s| - |t|..]
    ensures t != [] ==> !IsJsSpace(t[0])
  {
    if s != [] && IsJsSpace(s[0]) then TrimStart(s[1..]) else s
  }

  function TrimEnd(s: string): (t: string)
    ensures |t| <= |s| && t == s[..|t|]
    ensures t != [] ==> !IsJsSpace(t[|t| - 1])
  {
    if s != [] && IsJsSpace(s[|s| - 1]) then TrimEnd(s[..|s| - 1]) else s
  }

  function Trim(s: string): string {
    TrimEnd(TrimStart(s))
  }

  /**
   * StringToNumber for the integer literals the model covers: surrounding
   * white space is ignored, a blank string is 0, an optionally signed run of
   * decimal digits is its value, and any other text is NaN.
   */
  function StringToNumber(s: string): Num {
    var t := Trim(s);
    if t == "" then Number(0)
    else match ParseInt(t)
      case Some(n) => Number(n)
      case None => NaN
  }

  function ToNumber(v: JsValue): Num {
    match v
    case Undefined => NaN
    case Null => Number(0)
    case Bool(b) => Number(if b then 1 else 0)
    case Int(n) => Number(n)
    case Str(s) => StringToNumber(s)
    case Arr(_, _) => StringToNumber(ToString(v))
    case Obj(_) => NaN
  }

  /** ToIntegerOrInfinity on the modelled numbers: NaN becomes 0. */
  function ToIntegerOrInfinity(n: Num): int {
    match n
    case Number(i) => i
    case NaN => 0
  }

  /** Number equality: NaN equals nothing. */
  predicate NumberEquals(a: Num, b: Num) {
    a.Number? && b.Number? && a.n == b.n
  }

  /** IsStrictlyEqual on two values of the same type; objects compare by reference. */
  predicate StrictlyEqual(x: JsValue, y: JsValue) {
    match x
    case Arr(r, _) => y.Arr? && y.ref == r
    case Obj(r) => y.Obj? && y.ref == r
    case _ => x == y
  }

  /** How far a value is from the Number/String comparison loose equality ends in. */
  function CoercionRank(v: JsValue): nat {
    if v.Bool? then 2 else if IsObject(v) then 1 else 0
  }

  /** The `==` operator (IsLooselyEqual, section 7.2 of ECMA-262). */
  predicate LooselyEqual(x: JsValue, y: JsValue)
    decreases CoercionRank(x) + CoercionRank(y)
  {
    if TypeOfValue(x) == TypeOfValue(y) then StrictlyEqual(x, y)
    else if IsNullish(x) && IsNullish(y) then true
    else if x.Int? && y.Str? then NumberEquals(Number(x.n), StringToNumber(y.s))
    else if x.Str? && y.Int? then NumberEquals(StringToNumber(x.s), Number(y.n))
    else if x.Bool? then LooselyEqual(Int(if x.b then 1 else 0), y)
    else if y.Bool? then LooselyEqual(x, Int(if y.b then 1 else 0))
    else if (x.Int? || x.Str?) && IsObject(y) then LooselyEqual(x, ToPrimitive(y))
    else if IsObject(x) && (y.Int? || y.Str?) then LooselyEqual(ToPrimitive(x), y)
    else false
  }

  /** `==` does not depend on the order of its operands. */
  lemma {:induction false} LooselyEqualSymmetric(x: JsValue, y: JsValue)
    ensures LooselyEqual(x, y) == LooselyEqual(y, x)
    decreases CoercionRank(x) + CoercionRank(y)
  {
    if TypeOfValue(x) == TypeOfValue(y) {
    } else if IsNullish(x) && IsNullish(y) {
    } else if (x.Int? && y.Str?) || (x.Str? && y.Int?) {
    } else if x.Bool? {
      LooselyEqualSymmetric(Int(if x.b then 1 else 0), y);
    } else if y.Bool? {
      LooselyEqualSymmetric(x, Int(if y.b then 1 else 0));
    } else if (x.Int? || x.Str?) && IsObject(y) {
      LooselyEqualSymmetric(x, ToPrimitive(y));
    } else if IsObject(x) && (y.Int? || y.Str?) {
      LooselyEqualSymmetric(ToPrimitive(x), y);
    }
  }

  /** Two numbers are `==` exactly when they are equal. */
  lemma LooselyEqualInts(m: int, n: int)
    ensures LooselyEqual(Int(m), Int(n)) <==> m == n
  {
  }

  /** Exactly undefined and null are `== null`. */
  lemma LooselyEqualsNull(v: JsValue)
    ensures LooselyEqual(v, Null) <==> IsNullish(v)
  {
    if v.Bool? {
      assert !LooselyEqual(Int(if v.b then 1 else 0), Null);
    }
  }

  lemma {:induction false} TrimOfDecimal(n: int)
    ensures Trim(IntToDecimal(n)) == IntToDecimal(n)
  {
    var s := IntToDecimal(n);
    assert !IsJsSpace(s[0]) && !IsJsSpace(s[|s| - 1]);
    assert TrimStart(s) == s;
  }

  /** A number is loosely equal to its own decimal text: `2020 == "2020"`. */
  lemma IntLooselyEqualsItsDecimal(n: int)
    ensures LooselyEqual(Int(n), Str(IntToDecimal(n)))
    ensures LooselyEqual(Str(IntToDecimal(n)), Int(n))
  {
    TrimOfDecimal(n);
    ParseIntOfDecimal(n);
    assert IntToDecimal(n) != "";
    assert StringToNumber(IntToDecimal(n)) == Number(n);
  }

  /** A number and a string are `==` exactly when the string reads as that number. */
  lemma IntStringLooselyEqual(n: int, s: string)
    ensures LooselyEqual(Int(n), Str(s)) <==> StringToNumber(s) == Number(n)
  {
  }

  /**
   * An example, not a property the helpers rely on: `==` is not
   * transitive, since "" == 0 and 0 == "0", yet "" != "0".
   */
  lemma LooselyEqualNotTransitive()
    ensures LooselyEqual(Str(""), Int(0)) && LooselyEqual(Int(0), Str("0"))
    ensures !LooselyEqual(Str(""), Str("0"))
  {
    IntLooselyEqualsItsDecimal(0);
    assert IntToDecimal(0) == "0";
  }
}
