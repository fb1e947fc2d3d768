/** The element factory (packages/react/src/jsx.ts): `jsx(type, config,
    ...children)` and `jsxDEV(type, config)` build the immutable element record
    the reconciler consumes, splitting `key` and `ref` out of `config` and
    normalising the children. */
module Jsx {
  import opened Options

  /** The JavaScript values a config property, a ref or a child can hold, as
      far as the factory looks at them: numbers are integers, and an object is
      a plain object known only by its identity. */
  datatype Value =
    | Undefined
    | Null
    | Bool(b: bool)
    | Num(n: int)
    | Str(s: string)
    | Obj(id: nat)
    | Arr(items: seq<Value>)

  /** `REACT_ELEMENT_TYPE`, the `$$typeof` marker of every element. */
  datatype Marker = ReactElementType

  /** What an element renders: a host tag name or a component, known by identity. */
  datatype ElementType = TagName(name: string) | ComponentRef(id: nat)

  /** The element record; a `key` of `None` is null. `props` are the own
      properties of the props object, and `propsPrototype` is the prototype
      it was given through `__proto__`, `None` when it keeps
      `Object.prototype`. */
  datatype Element = Element(
    typeof: Marker,
    elementType: ElementType,
    key: Option<string>,
    ref: Value,
    props: map<string, Value>,
    propsPrototype: Option<Value>,
    mark: string
  )

  /** One enumerable property of `config`, in `for ... in` order; `own` is
      false for a property inherited through the prototype chain. */
  datatype Prop = Prop(name: string, value: Value, own: bool)

  predicate DistinctNames(c: seq<Prop>) {
    forall i, j | 0 <= i < j < |c| :: c[i].name != c[j].name
  }

  /** A config object as `for ... in` sees it: an object never enumerates one
      name twice. A null or undefined config enumerates nothing, like `[]`. */
  type Config = c: seq<Prop> | DistinctNames(c)

  // `'' + val`: the string conversion of a value.

  function DigitChar(d: nat): (c: char)
    requires d < 10
    ensures '0' <= c <= '9' && c as int - '0' as int == d
  {
    (d + '0' as int) as char
  }

  function NatToString(n: nat): (s: string)
    ensures |s| > 0 && forall i | 0 <= i < |s| :: '0' <= s[i] <= '9'
    decreases n
  {
    if n < 10 then [DigitChar(n)] else NatToString(n / 10) + [DigitChar(n % 10)]
  }

  /** Decimal notation of an integer, with a leading `-` when negative. */
  function IntToString(n: int): string {
    if n < 0 then "-" + NatToString(-n) else NatToString(n)
  }

  /** `Array.prototype.join(',')` on already converted elements. */
  function JoinWithCommas(ss: seq<string>): string
    decreases |ss|
  {
    if |ss| == 0 then "" else if |ss| == 1 then ss[0] else ss[0] + "," + JoinWithCommas(ss[1..])
  }

  /** `'' + v`: strings are kept, numbers and booleans are written out, a plain
      object is `[object Object]`, and an array joins its elements with commas,
      writing null and undefined elements as empty strings. */
  function ToJsString(v: Value): string
    decreases v
  {
    match v
    case Undefined => "undefined"
    case Null => "null"
    case Bool(b) => if b then "true" else "false"
    case Num(n) => IntToString(n)
    case Str(s) => s
    case Obj(_) => "[object Object]"
    case Arr(items) =>
      JoinWithCommas(seq(|items|, i requires 0 <= i < |items| =>
        if items[i].Null? || items[i].Undefined? then "" else ToJsString(items[i])))
  }

  /** Reading decimal digits back, the partner of `NatToString`. */
  function ParseNat(s: string): nat
    requires forall i | 0 <= i < |s| :: '0' <= s[i] <= '9'
    decreases |s|
  {
    if |s| == 0 then 0 else ParseNat(s[..|s| - 1]) * 10 + (s[|s| - 1] as int - '0' as int)
  }

  function ParseInt(s: string): int {
    if |s| > 0 && s[0] == '-' && forall i | 1 <= i < |s| :: '0' <= s[i] <= '9' then
      -(ParseNat(s[1..]) as int)
    else if forall i | 0 <= i < |s| :: '0' <= s[i] <= '9' then
      ParseNat(s)
    else
      0
  }

  lemma {:induction false} NatToStringRoundTrip(n: nat)
    ensures ParseNat(NatToString(n)) == n
    decreases n
  {
    if n >= 10 {
      var s := NatToString(n);
      assert s[..|s| - 1] == NatToString(n / 10);
      NatToStringRoundTrip(n / 10);
    }
  }

  lemma IntToStringRoundTrip(n: int)
    ensures ParseInt(IntToString(n)) == n
  {
    if n < 0 {
      var digits := NatToString(-n);
      var s := "-" + digits;
      assert s[1..] == digits;
      assert forall i | 1 <= i < |s| :: s[i] == digits[i - 1];
      NatToStringRoundTrip(-n);
      assert ParseInt(s) == -(ParseNat(digits) as int);
    } else {
      var s := NatToString(n);
      assert s[0] != '-';
      NatToStringRoundTrip(n);
      assert ParseInt(s) == ParseNat(s);
    }
  }

  /** A number used as a key becomes a string that reads back as the same
      number, so different numeric keys stay different keys. */
  lemma NumberKeyRoundTrip(n: int)
    ensures ParseInt(ToJsString(Num(n))) == n
  {
    IntToStringRoundTrip(n);
  }

  // The `for (const prop in config)` loop.

  /** Some of the first `n` entries is named `name` and is not undefined. */
  predicate DefinedIn(config: Config, name: string, n: nat)
    requires n <= |config|
  {
    exists i | 0 <= i < n :: config[i].name == name && config[i].value != Undefined
  }

  /** An entry that is copied into `props`: an own property other than `key`
      and `ref`, and other than `__proto__`, whose assignment runs the
      inherited prototype setter instead of creating a property. */
  predicate IsPropEntry(p: Prop) {
    p.own && p.name != "key" && p.name != "ref" && p.name != "__proto__"
  }

  /** The `__proto__` setter changes the prototype only to an object or
      null; any other value is ignored. */
  predicate SetsPrototype(v: Value) {
    v.Null? || v.Obj? || v.Arr?
  }

  /** An own `__proto__` entry whose assignment changes the prototype of
      `props`. */
  predicate IsPrototypeEntry(p: Prop) {
    p.own && p.name == "__proto__" && SetsPrototype(p.value)
  }

  /** `key`, `ref` and `props` (its own properties and its prototype) after
      the loop. */
  datatype Scanned = Scanned(key: Option<string>, ref: Value, props: map<string, Value>, proto: Option<Value>)

  /** The loop after its first `n` rounds: a defined `key` is stringified, a
      defined `ref` is taken as is (both even when inherited), and only own
      properties are copied into `props`. */
  function ScanConfig(config: Config, n: nat): Scanned
    requires n <= |config|
    decreases n
  {
    if n == 0 then
      Scanned(None, Null, map[], None)
    else
      var s := ScanConfig(config, n - 1);
      var prop := config[n - 1];
      if prop.name == "key" then
        if prop.value != Undefined then s.(key := Some(ToJsString(prop.value))) else s
      else if prop.name == "ref" then
        if prop.value != Undefined then s.(ref := prop.value) else s
      else if prop.own && prop.name == "__proto__" then
        if SetsPrototype(prop.value) then s.(proto := Some(prop.value)) else s
      else if prop.own then
        s.(props := s.props[prop.name := prop.value])
      else
        s
  }

  /** What the loop leaves in `key` after `n` rounds. */
  ghost predicate KeyMeans(config: Config, n: nat, key: Option<string>)
    requires n <= |config|
  {
    && (key.Some? <==> DefinedIn(config, "key", n))
    && forall i | 0 <= i < n && config[i].name == "key" && config[i].value != Undefined ::
         key == Some(ToJsString(config[i].value))
  }

  /** What the loop leaves in `ref` after `n` rounds. */
  ghost predicate RefMeans(config: Config, n: nat, ref: Value)
    requires n <= |config|
  {
    && (!DefinedIn(config, "ref", n) ==> ref == Null)
    && forall i | 0 <= i < n && config[i].name == "ref" && config[i].value != Undefined ::
         ref == config[i].value
  }

  /** What the loop leaves in `props` after `n` rounds. */
  ghost predicate PropsMean(config: Config, n: nat, props: map<string, Value>)
    requires n <= |config|
  {
    && (forall name | name in props :: exists i | 0 <= i < n :: config[i].name == name && IsPropEntry(config[i]))
    && forall i | 0 <= i < n && IsPropEntry(config[i]) ::
         config[i].name in props && props[config[i].name] == config[i].value
  }

  /** What the loop leaves as the prototype of `props` after `n` rounds. */
  ghost predicate ProtoMeans(config: Config, n: nat, proto: Option<Value>)
    requires n <= |config|
  {
    && (proto.Some? <==> exists i | 0 <= i < n :: IsPrototypeEntry(config[i]))
    && forall i | 0 <= i < n && IsPrototypeEntry(config[i]) :: proto == Some(config[i].value)
  }

  lemma {:induction false} ScanKeyMeaning(config: Config, n: nat)
    requires n <= |config|
    ensures KeyMeans(config, n, ScanConfig(config, n).key)
    decreases n
  {
    if n > 0 {
      ScanKeyMeaning(config, n - 1);
      var prop := config[n - 1];
      assert forall i | 0 <= i < n - 1 :: config[i].name != prop.name;
      if prop.name == "key" && prop.value != Undefined {
        assert DefinedIn(config, "key", n);
      }
    }
  }

  lemma {:induction false} ScanRefMeaning(config: Config, n: nat)
    requires n <= |config|
    ensures RefMeans(config, n, ScanConfig(config, n).ref)
    decreases n
  {
    if n > 0 {
      ScanRefMeaning(config, n - 1);
      var prop := config[n - 1];
      assert forall i | 0 <= i < n - 1 :: config[i].name != prop.name;
      if prop.name == "ref" && prop.value != Undefined {
        assert DefinedIn(config, "ref", n);
      }
    }
  }

  lemma {:induction false} ScanPropsMeaning(config: Config, n: nat)
    requires n <= |config|
    ensures PropsMean(config, n, ScanConfig(config, n).props)
    decreases n
  {
    if n > 0 {
      ScanPropsMeaning(config, n - 1);
      var s := ScanConfig(config, n - 1);
      var prop := config[n - 1];
      var r := ScanConfig(config, n);
      assert forall i | 0 <= i < n - 1 :: config[i].name != prop.name;
      if IsPropEntry(prop) {
        assert r.props == s.props[prop.name := prop.value];
        forall name | name in r.props
          ensures exists i | 0 <= i < n :: config[i].name == name && IsPropEntry(config[i])
        {
          if name !in s.props {
            assert config[n - 1].name == name;
          }
        }
      } else {
        assert r.props == s.props;
      }
    }
  }

  lemma {:induction false} ScanProtoMeaning(config: Config, n: nat)
    requires n <= |config|
    ensures ProtoMeans(config, n, ScanConfig(config, n).proto)
    decreases n
  {
    if n > 0 {
      ScanProtoMeaning(config, n - 1);
      var prop := config[n - 1];
      assert forall i | 0 <= i < n - 1 :: config[i].name != prop.name;
      if IsPrototypeEntry(prop) {
        assert exists i | 0 <= i < n :: IsPrototypeEntry(config[i]);
      }
    }
  }

  /** `ReactElement(type, key, ref, props)`: the record with the element
      marker. */
  function ReactElement(elementType: ElementType, key: Option<string>, ref: Value,
                        props: map<string, Value>, propsPrototype: Option<Value>): Element {
    Element(ReactElementType, elementType, key, ref, props, propsPrototype, "mini")
  }

  /** `config` has an own property `name` that is copied into `props`. */
  predicate HasOwnProp(config: Config, name: string) {
    exists i | 0 <= i < |config| :: config[i].name == name && IsPropEntry(config[i])
  }

  /** `jsx(type, config, ...children)`. */
  function Jsx(elementType: ElementType, config: Config, children: seq<Value>): (e: Element)
    ensures e.typeof == ReactElementType && e.elementType == elementType && e.mark == "mini"
    ensures e.key.Some? <==> DefinedIn(config, "key", |config|)
    ensures forall i | 0 <= i < |config| && config[i].name == "key" && config[i].value != Undefined ::
              e.key == Some(ToJsString(config[i].value))
    ensures !DefinedIn(config, "ref", |config|) ==> e.ref == Null
    ensures forall i | 0 <= i < |config| && config[i].name == "ref" && config[i].value != Undefined ::
              e.ref == config[i].value
    ensures forall name :: name in e.props <==> HasOwnProp(config, name) || (name == "children" && |children| > 0)
    ensures forall i | 0 <= i < |config| && IsPropEntry(config[i]) && (config[i].name != "children" || |children| == 0) ::
              config[i].name in e.props && e.props[config[i].name] == config[i].value
    ensures |children| == 1 ==> e.props["children"] == children[0]
    ensures |children| > 1 ==> e.props["children"] == Arr(children)
    ensures "__proto__" !in e.props
    ensures e.propsPrototype.Some? <==> exists i | 0 <= i < |config| :: IsPrototypeEntry(config[i])
    ensures forall i | 0 <= i < |config| && IsPrototypeEntry(config[i]) :: e.propsPrototype == Some(config[i].value)
  {
    var s := ScanConfig(config, |config|);
    ScanKeyMeaning(config, |config|);
    ScanRefMeaning(config, |config|);
    ScanPropsMeaning(config, |config|);
    ScanProtoMeaning(config, |config|);
    var props :=
      if |children| == 0 then s.props
      else if |children| == 1 then s.props["children" := children[0]]
      else s.props["children" := Arr(children)];
    ReactElement(elementType, s.key, s.ref, props, s.proto)
  }

  /** `jsxDEV(type, config)`: the same loop without children, so the same
      element as `jsx` called with none. */
  function JsxDev(elementType: ElementType, config: Config): (e: Element)
    ensures e == Jsx(elementType, config, [])
  {
    var s := ScanConfig(config, |config|);
    ReactElement(elementType, s.key, s.ref, s.props, s.proto)
  }
}
