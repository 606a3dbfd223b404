/** The JavaScript values the editor keeps in its state, as `JSON.parse`
    produces them plus `undefined`, and the language operations the editor
    applies to them: truthiness and `||`, property reads, `Object.assign`,
    `String(v)`, `Number(v)` and the `JSON.parse(JSON.stringify(v))` copy. */
module Json {
  import opened Wrappers
  import opened Strings
  import opened Numbers

  /** A value: numbers are exact decimals (JSON has no NaN or Infinity), an
      array is its elements and an object its own enumerable properties. */
  datatype Value =
    | Undefined
    | Null
    | Bool(b: bool)
    | Num(n: Dec)
    | Str(s: string)
    | Arr(elems: seq<Value>)
    | Obj(props: map<string, Value>)

  /** ToBoolean: `undefined`, `null`, `false`, `0` and `''` are falsy. */
  predicate Truthy(v: Value)
  {
    match v
    case Undefined => false
    case Null => false
    case Bool(b) => b
    case Num(n) => n.mant != 0
    case Str(s) => s != ""
    case _ => true
  }

  /** `null` or `undefined`: the values whose property reads throw. */
  predicate Nullish(v: Value)
  {
    v.Undefined? || v.Null?
  }

  /** `typeof v === 'object'`: `null`, arrays and objects. */
  predicate IsObjectType(v: Value)
  {
    v.Null? || v.Arr? || v.Obj?
  }

  /** `v || d`. */
  function Or(v: Value, d: Value): (r: Value)
    ensures Truthy(r) <==> Truthy(v) || Truthy(d)
    ensures r == v || r == d
  {
    if Truthy(v) then v else d
  }

  /** `v || ''` for a value known to be a string: the string itself. */
  lemma OrEmptyString(s: string)
    ensures Or(Str(s), Str("")) == Str(s)
  {
  }

  /** `(v || d) || d` is `v || d`: defaulting twice is defaulting once. */
  lemma OrIdempotent(v: Value, d: Value)
    ensures Or(Or(v, d), d) == Or(v, d)
  {
  }

  /** A canonical array index written in decimal: "0", "1", …, never "01". */
  predicate IsIndex(key: string)
  {
    |key| > 0 && AllDigits(key) && (|key| == 1 || key[0] != '0')
  }

  /** `v[key]` for a value that is not `null` or `undefined`: an object's own
      property, an array element or a string's character by canonical index,
      and `length`; every other read gives `undefined`. */
  function Get(v: Value, key: string): (r: Value)
    ensures v.Obj? ==> (r == if key in v.props then v.props[key] else Undefined)
    ensures !v.Obj? && !v.Arr? && !v.Str? ==> r == Undefined
  {
    match v
    case Obj(m) => if key in m then m[key] else Undefined
    case Arr(e) =>
      if key == "length" then Num(Dec(|e|, 0))
      else if IsIndex(key) && DigitsValue(key) < |e| then e[DigitsValue(key)]
      else Undefined
    case Str(s) =>
      if key == "length" then Num(Dec(|s|, 0))
      else if IsIndex(key) && DigitsValue(key) < |s| then Str([s[DigitsValue(key)]])
      else Undefined
    case _ => Undefined
  }

  /** A key made of letters is neither an index nor `length`: reading it from
      anything but an object gives `undefined`. */
  lemma GetNamed(v: Value, key: string)
    requires |key| > 0 && !IsDigit(key[0]) && key != "length"
    ensures !v.Obj? ==> Get(v, key) == Undefined
  {
  }

  lemma NatToStringInjectiveAll()
    ensures forall m: nat, n: nat :: NatToString(m) == NatToString(n) ==> m == n
  {
    forall m: nat, n: nat | NatToString(m) == NatToString(n)
      ensures m == n
    {
      NatToStringInjective(m, n);
    }
  }

  /** The own enumerable properties `Object.assign` copies from a source:
      an object's properties, an array's or a string's indices, and nothing
      for `null`, `undefined`, booleans and numbers. */
  function OwnProps(v: Value): (r: map<string, Value>)
    ensures v.Obj? ==> r == v.props
    ensures Nullish(v) || v.Bool? || v.Num? ==> r == map[]
  {
    match v
    case Obj(m) => m
    case Arr(e) => IndexProps(e)
    case Str(s) => IndexProps(CharValues(s))
    case _ => map[]
  }

  /** The one-character strings of `s`. */
  function CharValues(s: string): seq<Value>
  {
    seq(|s|, i requires 0 <= i < |s| => Str([s[i]]))
  }

  /** The entries of a list under their decimal indices. */
  function IndexProps(e: seq<Value>): (r: map<string, Value>)
    ensures forall i :: 0 <= i < |e| ==> NatToString(i) in r && r[NatToString(i)] == e[i]
    ensures forall k :: k in r ==> k != "" && '0' <= k[0] <= '9'
  {
    NatToStringInjectiveAll();
    map i | 0 <= i < |e| :: NatToString(i) := e[i]
  }

  /** `Object.assign({}, a, b)`: later sources win. */
  function Assign(a: Value, b: Value): (r: map<string, Value>)
    ensures forall k :: k in r <==> k in OwnProps(a) || k in OwnProps(b)
    ensures forall k :: k in OwnProps(b) ==> r[k] == OwnProps(b)[k]
    ensures forall k :: k in OwnProps(a) && k !in OwnProps(b) ==> r[k] == OwnProps(a)[k]
  {
    OwnProps(a) + OwnProps(b)
  }

  /** `obj[key] = x`: an object gains or replaces the property; assigning a
      property of a primitive is ignored (the code runs in sloppy mode). */
  function SetProp(v: Value, key: string, x: Value): (r: Value)
    ensures v.Obj? ==> r.Obj? && r.props == v.props[key := x]
    ensures !v.Obj? ==> r == v
  {
    if v.Obj? then Obj(v.props[key := x]) else v
  }

  // ------------------------------------------------ String(v) and Number(v)

  /** `String(v)`: arrays join their elements with commas, `null` and
      `undefined` elements giving nothing; plain objects print as
      `[object Object]`. */
  function JsToString(v: Value): string
    decreases v, if v.Arr? then |v.elems| + 1 else 0
  {
    match v
    case Undefined => "undefined"
    case Null => "null"
    case Bool(b) => if b then "true" else "false"
    case Num(n) => NumberToString(n)
    case Str(s) => s
    case Arr(e) => ElementsText(v, 0)
    case Obj(_) => "[object Object]"
  }

  /** The elements of array `v` from index `k` on, as `join(',')` writes them. */
  function ElementsText(v: Value, k: nat): string
    requires v.Arr? && k <= |v.elems|
    decreases v, |v.elems| - k
  {
    if k == |v.elems| then ""
    else
      var x := v.elems[k];
      var piece := if Nullish(x) then "" else JsToString(x);
      if k + 1 == |v.elems| then piece else piece + "," + ElementsText(v, k + 1)
  }

  /** `Number(v)`: `undefined` is NaN, `null` is 0, booleans are 0 and 1,
      strings are read by StringToNumber, arrays and objects through their
      string form. */
  function ToNumber(v: Value): Numeric
  {
    match v
    case Undefined => NonFinite
    case Null => Finite(Dec(0, 0))
    case Bool(b) => Finite(Dec(if b then 1 else 0, 0))
    case Num(n) => Finite(Strip(n))
    case Str(s) => StringToNumber(s)
    case _ => StringToNumber(JsToString(v))
  }

  /** `String(x)` of a number reads back as the same number. */
  lemma ToNumberOfString(n: Dec)
    ensures ToNumber(Str(JsToString(Num(n)))) == Finite(Strip(n))
  {
    ReadString(NumberToString(n));
    NumberRoundTrip(n);
  }

  lemma ReadString(s: string)
    ensures ToNumber(Str(s)) == StringToNumber(s)
  {
  }

  // ------------------------------------------------ JSON.parse(JSON.stringify(v))

  /** A value JSON represents exactly: no `undefined` anywhere inside. */
  predicate Plain(v: Value)
  {
    match v
    case Undefined => false
    case Arr(e) => forall i :: 0 <= i < |e| ==> Plain(e[i])
    case Obj(m) => forall k :: k in m ==> Plain(m[k])
    case _ => true
  }

  /** `JSON.parse(JSON.stringify(v))` of a value other than `undefined`:
      object properties holding `undefined` are dropped and array elements
      holding it become `null`. */
  function JsonClone(v: Value): (r: Value)
  {
    match v
    case Arr(e) => Arr(seq(|e|, i requires 0 <= i < |e| => if e[i].Undefined? then Null else JsonClone(e[i])))
    case Obj(m) => Obj(map k | k in m && !m[k].Undefined? :: JsonClone(m[k]))
    case _ => v
  }

  /** The copy of anything but `undefined` is plain. */
  lemma {:induction false} JsonCloneIsPlain(v: Value)
    requires !v.Undefined?
    ensures Plain(JsonClone(v))
  {
    match v
    case Arr(e) =>
      forall i | 0 <= i < |e| && !e[i].Undefined?
        ensures Plain(JsonClone(e[i]))
      {
        JsonCloneIsPlain(e[i]);
      }
    case Obj(m) =>
      forall k | k in m && !m[k].Undefined?
        ensures Plain(JsonClone(m[k]))
      {
        JsonCloneIsPlain(m[k]);
      }
    case _ =>
  }

  /** A plain value is copied exactly. */
  lemma {:induction false} JsonClonePlain(v: Value)
    requires Plain(v)
    ensures JsonClone(v) == v
  {
    match v
    case Arr(e) =>
      forall i | 0 <= i < |e|
        ensures JsonClone(e[i]) == e[i]
      {
        JsonClonePlain(e[i]);
      }
      assert JsonClone(v).elems == e;
    case Obj(m) =>
      forall k | k in m
        ensures JsonClone(m[k]) == m[k]
      {
        JsonClonePlain(m[k]);
      }
      assert JsonClone(v).props == m;
    case _ =>
  }

  /** Copying a copy changes nothing. */
  lemma JsonCloneIdempotent(v: Value)
    requires !v.Undefined?
    ensures JsonClone(JsonClone(v)) == JsonClone(v)
  {
    JsonCloneIsPlain(v);
    JsonClonePlain(JsonClone(v));
  }
}
