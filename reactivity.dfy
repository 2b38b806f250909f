/**
 * The reactive core: the data tree after `Observer` has given every key a getter and a
 * setter, the `Dep` lists those getters fill, the `Watcher`s they hold, and the path
 * evaluator of `CompileUtil` (getValue, setValue, getContentValue).
 *
 * The data objects and the properties `defineReactive` installs are kept in a `Store`:
 * each object has an identity of its own, and each of its keys holds a property, that is
 * the closure variable `value` and the `dep` created with it. `MVVM` holds the store, the
 * keys `proxyData` added, and the global slot `Dep.target`.
 */
module Reactivity {
  import opened Wrappers
  import opened Strings
  import opened Interpolation
  import opened Dom
  import Updater

  /** The integers a JavaScript number holds exactly: `Number.MIN_SAFE_INTEGER` to
      `Number.MAX_SAFE_INTEGER`. Two of them are `===` exactly when they are equal, and `String`
      writes each in plain decimal digits. */
  type SafeInt = n: int | -0x1F_FFFF_FFFF_FFFF <= n <= 0x1F_FFFF_FFFF_FFFF

  /** The primitive values of the data (numbers are modelled as safe integers). */
  datatype Scalar = Str(s: string) | Num(n: SafeInt) | Bool(b: bool) | Undefined

  /** A value held by the data: a primitive, or the identity of a data object, so that
      `!==` is this datatype's inequality (objects compare by reference). */
  datatype Value = Prim(scalar: Scalar) | Obj(id: nat)

  /** A value as an options object or a program writes it: a tree of object literals. */
  datatype Plain = PlainPrim(scalar: Scalar) | PlainObj(fields: map<string, Plain>)

  function DigitChar(d: nat): char
    requires d < 10
  {
    "0123456789"[d]
  }

  function Decimal(n: nat): string
  {
    if n < 10 then [DigitChar(n)] else Decimal(n / 10) + [DigitChar(n % 10)]
  }

  /** `String(x)` for a primitive. */
  function ScalarString(s: Scalar): string
  {
    match s
    case Str(t) => t
    case Num(n) => if n < 0 then "-" + Decimal(-n) else Decimal(n)
    case Bool(b) => if b then "true" else "false"
    case Undefined => "undefined"
  }

  /** `String(v)`: what `setAttribute`, `innerHTML`, `value` and a `replace` callback make of a value. */
  function Show(v: Value): string
  {
    match v
    case Prim(s) => ScalarString(s)
    case Obj(_) => "[object Object]"
  }

  /** What the `textContent` setter makes of a value: it takes a nullable string, so
      `undefined` clears the text. */
  function TextString(v: Value): string
  {
    if v == Prim(Undefined) then "" else Show(v)
  }

  // ---------------------------------------------------------------------------------------
  // The data
  // ---------------------------------------------------------------------------------------

  /** What `defineReactive` installs under one key: the closure variable `value` that its
      getter returns and its setter assigns, and the `dep` created with it. */
  datatype Prop = Prop(value: Value, dep: Dep)

  /** The data objects and their properties. `place` maps each object to the keys that lead
      to it from `$data` (`root`); `props` maps an object and a key to the property installed
      there; `next` is the next unused object identity. */
  datatype Store = Store(root: nat, place: map<nat, seq<string>>, props: map<(nat, string), Prop>, next: nat)

  /** The property under `key` of object `r`, if it has one. */
  function At(st: Store, r: nat, key: string): Option<Prop>
  {
    if (r, key) in st.props then Some(st.props[(r, key)]) else None
  }

  /** `v` may sit at the keys `at`: it is a primitive, or an object placed there. */
  predicate Fits(st: Store, v: Value, at: seq<string>)
  {
    v.Obj? ==> v.id in st.place && st.place[v.id] == at
  }

  /** The data is a tree: `$data` sits at no keys, every identity in use is below `next`,
      and each property belongs to a known object and holds a primitive or an object
      placed at the keys of the property. */
  ghost predicate Closed(st: Store)
  {
    && st.root in st.place && st.place[st.root] == []
    && (forall r :: r in st.place ==> r < st.next)
    && (forall r, k :: At(st, r, k).Some? ==> r in st.place && Fits(st, At(st, r, k).value.value, st.place[r] + [k]))
  }

  /** `data[key]` through the getter: `None` is the TypeError of reading a key of
      `undefined`; a missing key reads as `undefined`, and so does a key of any other primitive. */
  function Step(st: Store, v: Value, key: string): Option<Value>
  {
    match v
    case Obj(id) => (match At(st, id, key) case Some(q) => Some(q.value) case None => Some(Prim(Undefined)))
    case Prim(s) => if s == Undefined then None else Some(Prim(Undefined))
  }

  /** `path.reduce((data, key) => data[key], v)`, stopping at the first TypeError. */
  function Lookup(st: Store, v: Value, path: seq<string>): Option<Value>
    decreases |path|
  {
    if path == [] then Some(v)
    else
      match Lookup(st, v, path[..|path| - 1])
      case None => None
      case Some(u) => Step(st, u, path[|path| - 1])
  }

  /** `CompileUtil.getValue(vm, expression)`. */
  function GetValue(st: Store, expression: string): Option<Value>
  {
    Lookup(st, Obj(st.root), Split(expression, '.'))
  }

  /** The dep whose getter a read of `key` of `u` runs, if any. */
  function Reads(st: Store, u: Value, key: string): seq<Dep>
  {
    if u.Obj? && At(st, u.id, key).Some? then [At(st, u.id, key).value.dep] else []
  }

  /** The deps whose getters a read of `path` from `v` runs, in order. */
  function Touched(st: Store, v: Value, path: seq<string>): seq<Dep>
    decreases |path|
  {
    if path == [] then []
    else
      var prefix := path[..|path| - 1];
      Touched(st, v, prefix) + match Lookup(st, v, prefix) case Some(u) => Reads(st, u, path[|path| - 1]) case None => []
  }

  lemma LookupSnoc(st: Store, v: Value, path: seq<string>, i: nat)
    requires i < |path|
    ensures Lookup(st, v, path[..i + 1]) == match Lookup(st, v, path[..i]) case None => None case Some(u) => Step(st, u, path[i])
    ensures Touched(st, v, path[..i + 1]) == Touched(st, v, path[..i]) + match Lookup(st, v, path[..i]) case Some(u) => Reads(st, u, path[i]) case None => []
  {
    assert path[..i + 1][..i] == path[..i];
  }

  /** Once a read has thrown, reading further keys throws too and runs no more getters. */
  lemma {:induction false} LookupStops(st: Store, v: Value, path: seq<string>, i: nat)
    requires i <= |path| && Lookup(st, v, path[..i]) == None
    ensures Lookup(st, v, path) == None && Touched(st, v, path) == Touched(st, v, path[..i])
    decreases |path| - i
  {
    if i < |path| {
      LookupSnoc(st, v, path, i);
      LookupStops(st, v, path, i + 1);
    } else {
      assert path[..i] == path;
    }
  }

  /** A read that succeeds succeeded on every prefix of its path. */
  lemma {:induction false} LookupPrefix(st: Store, v: Value, path: seq<string>, i: nat)
    requires i <= |path| && Lookup(st, v, path).Some?
    ensures Lookup(st, v, path[..i]).Some?
    decreases |path|
  {
    if i < |path| {
      var prefix := path[..|path| - 1];
      assert prefix[..i] == path[..i];
      LookupPrefix(st, v, prefix, i);
    } else {
      assert path[..i] == path;
    }
  }

  /** A read from `$data` that reaches an object reaches the one whose place is the keys read. */
  lemma {:induction false} LookupPlaced(st: Store, path: seq<string>)
    requires Closed(st)
    ensures var r := Lookup(st, Obj(st.root), path); r.Some? ==> Fits(st, r.value, path)
    decreases |path|
  {
    if path != [] {
      var prefix := path[..|path| - 1];
      LookupPlaced(st, prefix);
      assert prefix + [path[|path| - 1]] == path;
    }
  }

  /** When every key on the way exists, the read runs the getter of every key of the path,
      one after the other: `user.name` registers with the dep of `user` and with that of `name`. */
  lemma {:induction false} TouchedAll(st: Store, v: Value, path: seq<string>, i: nat)
    requires i < |path|
    requires var u := Lookup(st, v, path[..i]); u.Some? && u.value.Obj? && At(st, u.value.id, path[i]).Some?
    ensures At(st, Lookup(st, v, path[..i]).value.id, path[i]).value.dep in Touched(st, v, path)
    decreases |path|
  {
    if i + 1 == |path| {
      assert path[..|path| - 1] == path[..i];
    } else {
      var prefix := path[..|path| - 1];
      assert prefix[..i] == path[..i];
      TouchedAll(st, v, prefix, i);
    }
  }

  /** A read runs at most one getter per key of the path. */
  lemma {:induction false} TouchedBound(st: Store, v: Value, path: seq<string>)
    ensures |Touched(st, v, path)| <= |path|
    decreases |path|
  {
    if path != [] {
      TouchedBound(st, v, path[..|path| - 1]);
    }
  }

  // ---------------------------------------------------------------------------------------
  // How the store changes
  // ---------------------------------------------------------------------------------------

  /** `observe` of an object literal: a new object without keys yet, placed at `at`. */
  function AddObject(st: Store, at: seq<string>): Store
  {
    st.(place := st.place[st.next := at], next := st.next + 1)
  }

  /** `Object.defineProperty(data, key, …)`: a new property of `rec` under `key`, replacing
      any property there, holding `v` and watched by `dep`. */
  function Define(st: Store, rec: nat, key: string, v: Value, dep: Dep): Store
  {
    st.(props := st.props[(rec, key) := Prop(v, dep)])
  }

  /** `value = newVal` inside the setter of `key` of `rec`: the same dep, a new value. */
  function Write(st: Store, rec: nat, key: string, v: Value): Store
    requires At(st, rec, key).Some?
  {
    Define(st, rec, key, v, At(st, rec, key).value.dep)
  }

  /** The keys of object `r`: `Object.keys(data)` and the `for … in` of `proxyData`. */
  function Keys(st: Store, r: nat): (ks: set<string>)
    ensures forall k :: k in ks <==> At(st, r, k).Some?
  {
    var ks := set x | x in st.props.Keys && x.0 == r :: x.1;
    assert forall k :: At(st, r, k).Some? ==> (r, k) in st.props.Keys && (r, k).1 == k;
    ks
  }

  /** `st'` only adds objects and properties to `st`, and changes the properties of the
      objects in `except` and of no other. */
  ghost predicate Extends(st: Store, st': Store, except: set<nat>)
  {
    && st'.root == st.root && st.next <= st'.next
    && (forall r :: r in st.place ==> r in st'.place && st'.place[r] == st.place[r])
    && (forall r, k :: r in st.place && r !in except ==> At(st', r, k) == At(st, r, k))
  }

  lemma ExtendsTrans(st0: Store, st1: Store, st2: Store, e1: set<nat>, e2: set<nat>)
    requires Extends(st0, st1, e1) && Extends(st1, st2, e2)
    ensures Extends(st0, st2, e1 + e2)
  {
  }

  /** A new object keeps the data a tree and changes nothing else. */
  lemma AddObjectClosed(st: Store, at: seq<string>)
    requires Closed(st)
    ensures Closed(AddObject(st, at)) && Extends(st, AddObject(st, at), {})
  {
    var st' := AddObject(st, at);
    assert forall r, k :: At(st', r, k) == At(st, r, k);
  }

  /** Installing a property at its place keeps the data a tree and changes nothing else. */
  lemma DefineClosed(st: Store, rec: nat, key: string, v: Value, dep: Dep)
    requires Closed(st) && rec in st.place && Fits(st, v, st.place[rec] + [key])
    ensures Closed(Define(st, rec, key, v, dep)) && Extends(st, Define(st, rec, key, v, dep), {rec})
    ensures forall k :: k != key ==> At(Define(st, rec, key, v, dep), rec, k) == At(st, rec, k)
  {
    var st' := Define(st, rec, key, v, dep);
    assert forall r: nat, k: string :: (r, k) != (rec, key) ==> At(st', r, k) == At(st, r, k);
  }

  /** Every identity of `S` was unused in a store whose `next` is `n`. */
  predicate Above(S: set<nat>, n: nat)
  {
    forall x :: x in S ==> n <= x
  }

  /** `st` and `st'` agree on the properties of the objects `R`. */
  ghost predicate Agree(st: Store, st': Store, R: set<nat>)
  {
    forall r, k :: r in R ==> At(st', r, k) == At(st, r, k)
  }

  lemma ExtendsAgree(st: Store, st': Store, except: set<nat>, R: set<nat>)
    requires Extends(st, st', except) && R !! except && R <= st.place.Keys
    ensures Agree(st, st', R)
  {
  }

  /** `v` is the reactive form of `p`: an object for each object literal, with the same keys,
      its objects drawn from `R`. */
  ghost predicate Represents(st: Store, v: Value, p: Plain, R: set<nat>)
    decreases p
  {
    match p
    case PlainPrim(s) => v == Prim(s)
    case PlainObj(m) =>
      && v.Obj? && v.id in R
      && (forall k :: At(st, v.id, k).Some? ==> k in m)
      && forall k :: k in m ==> At(st, v.id, k).Some? && Represents(st, At(st, v.id, k).value.value, m[k], R)
  }

  lemma {:induction false} RepresentsGrow(st: Store, v: Value, p: Plain, R: set<nat>, R': set<nat>)
    requires Represents(st, v, p, R) && R <= R'
    ensures Represents(st, v, p, R')
    decreases p
  {
    match p
    case PlainPrim(_) =>
    case PlainObj(m) =>
      forall k | k in m
        ensures Represents(st, At(st, v.id, k).value.value, m[k], R')
      {
        RepresentsGrow(st, At(st, v.id, k).value.value, m[k], R, R');
      }
  }

  /** A representation survives any change outside its own objects. */
  lemma {:induction false} RepresentsFrame(st: Store, st': Store, v: Value, p: Plain, R: set<nat>)
    requires Represents(st, v, p, R) && Agree(st, st', R)
    ensures Represents(st', v, p, R)
    decreases p
  {
    match p
    case PlainPrim(_) =>
    case PlainObj(m) =>
      forall k | k in m
        ensures Represents(st', At(st', v.id, k).value.value, m[k], R)
      {
        RepresentsFrame(st, st', At(st, v.id, k).value.value, m[k], R);
      }
  }

  /** Defining more keys of `rec` keeps the representations under the keys defined before. */
  lemma FieldsFrame(st: Store, st': Store, rec: nat, fields: map<string, Plain>, Rs: map<string, set<nat>>)
    requires Extends(st, st', {rec})
    requires forall k :: k in Rs ==> k in fields && Rs[k] <= st.place.Keys && rec !in Rs[k]
    requires forall k :: k in Rs ==> At(st, rec, k).Some? && Represents(st, At(st, rec, k).value.value, fields[k], Rs[k])
    requires forall k :: k in Rs ==> At(st', rec, k) == At(st, rec, k)
    ensures forall k :: k in Rs ==> At(st', rec, k).Some? && Represents(st', At(st', rec, k).value.value, fields[k], Rs[k])
  {
    forall k | k in Rs
      ensures Represents(st', At(st', rec, k).value.value, fields[k], Rs[k])
    {
      ExtendsAgree(st, st', {rec}, Rs[k]);
      RepresentsFrame(st, st', At(st, rec, k).value.value, fields[k], Rs[k]);
    }
  }

  /** The representations under the keys of `rec`, each with its own objects, make up one
      representation of the whole object literal. */
  lemma FieldsGrow(st: Store, rec: nat, fields: map<string, Plain>, Rs: map<string, set<nat>>, R: set<nat>)
    requires rec in R && Rs.Keys == fields.Keys && forall k :: At(st, rec, k).Some? <==> k in Rs
    requires forall k :: k in Rs ==> Rs[k] <= R && At(st, rec, k).Some? && Represents(st, At(st, rec, k).value.value, fields[k], Rs[k])
    ensures Represents(st, Obj(rec), PlainObj(fields), R)
  {
    forall k | k in fields
      ensures Represents(st, At(st, rec, k).value.value, fields[k], R)
    {
      RepresentsGrow(st, At(st, rec, k).value.value, fields[k], Rs[k], R);
    }
  }

  /** Every property of the objects `R` is watched by a dep of `ds`. */
  ghost predicate WatchedBy(st: Store, R: set<nat>, ds: set<Dep>)
  {
    forall r, k :: r in R && At(st, r, k).Some? ==> At(st, r, k).value.dep in ds
  }

  /** The object literal read along `path`, as `getValue` reads a plain JavaScript object. */
  function PlainLookup(p: Plain, path: seq<string>): Option<Plain>
    decreases |path|
  {
    if path == [] then Some(p)
    else
      match PlainLookup(p, path[..|path| - 1])
      case None => None
      case Some(q) =>
        var key := path[|path| - 1];
        match q
        case PlainObj(m) => if key in m then Some(m[key]) else Some(PlainPrim(Undefined))
        case PlainPrim(s) => if s == Undefined then None else Some(PlainPrim(Undefined))
  }

  /** Reading a reactive copy gives what reading the object literal gives: the same
      primitives, a reactive copy of each nested object, and a TypeError in the same places. */
  lemma {:induction false} LookupRepresents(st: Store, v: Value, p: Plain, R: set<nat>, path: seq<string>)
    requires Represents(st, v, p, R)
    ensures Lookup(st, v, path).Some? <==> PlainLookup(p, path).Some?
    ensures Lookup(st, v, path).Some? ==> Represents(st, Lookup(st, v, path).value, PlainLookup(p, path).value, R)
    decreases |path|
  {
    if path != [] {
      LookupRepresents(st, v, p, R, path[..|path| - 1]);
    }
  }

  /** `path` extends `s`. */
  predicate IsPrefix(s: seq<string>, path: seq<string>)
  {
    |s| <= |path| && path[..|s|] == s
  }

  /** `st'` differs from `st` only at the property placed at the keys `s` and below it: every
      object keeps its keys, and a property outside `s` keeps its value and its dep. */
  ghost predicate AgreeOff(st: Store, st': Store, s: seq<string>)
  {
    && st'.root == st.root
    && (forall r, k :: r in st.place ==> At(st', r, k).Some? == At(st, r, k).Some?)
    && (forall r, k :: r in st.place && !IsPrefix(s, st.place[r] + [k]) ==> At(st', r, k) == At(st, r, k))
  }

  /** A write at `s` leaves every read of a path that does not go through `s` as it was. */
  lemma {:induction false} LookupOff(st: Store, st': Store, s: seq<string>, q: seq<string>)
    requires Closed(st) && AgreeOff(st, st', s) && !IsPrefix(s, q)
    ensures Lookup(st', Obj(st'.root), q) == Lookup(st, Obj(st.root), q)
    decreases |q|
  {
    if q != [] {
      var prefix := q[..|q| - 1];
      var key := q[|q| - 1];
      assert q == prefix + [key];
      assert |s| <= |prefix| ==> q[..|s|] == prefix[..|s|];
      LookupOff(st, st', s, prefix);
      LookupPlaced(st, prefix);
    }
  }

  /** The setter of `key` of `rec` changes the store only at the place of that key and
      below it, whether it writes into the old property or installs a new one. */
  lemma ReplaceAgree(st0: Store, st1: Store, rec: nat, key: string)
    requires Closed(st0) && At(st0, rec, key).Some? && At(st1, rec, key).Some?
    requires Extends(st0, st1, {rec}) && forall k :: k != key ==> At(st1, rec, k) == At(st0, rec, k)
    ensures AgreeOff(st0, st1, st0.place[rec] + [key])
  {
    var s := st0.place[rec] + [key];
    assert IsPrefix(s, st0.place[rec] + [key]);
  }

  /** `setValue` can write `expression`: the keys before the last one read an object, and
      that object has the last key. */
  predicate Writable(st: Store, expression: string)
  {
    var s := Split(expression, '.');
    var u := Lookup(st, Obj(st.root), s[..|s| - 1]);
    u.Some? && u.value.Obj? && At(st, u.value.id, s[|s| - 1]).Some?
  }

  /** The object `setValue` writes into. */
  function Parent(st: Store, expression: string): nat
    requires Writable(st, expression)
  {
    var s := Split(expression, '.');
    Lookup(st, Obj(st.root), s[..|s| - 1]).value.id
  }

  /** The dep of the property `setValue` writes. */
  function LeafDep(st: Store, expression: string): Dep
    requires Writable(st, expression)
  {
    var s := Split(expression, '.');
    At(st, Parent(st, expression), s[|s| - 1]).value.dep
  }

  // ---------------------------------------------------------------------------------------
  // getContentValue and the callbacks
  // ---------------------------------------------------------------------------------------

  /** `String(getValue(e))` for each expression, in order, or `None` when one of them throws. */
  function HoleStrings(st: Store, es: seq<string>): (r: Option<seq<string>>)
    ensures r.Some? ==> |r.value| == |es|
    decreases |es|
  {
    if es == [] then Some([])
    else match HoleStrings(st, es[..|es| - 1])
      case None => None
      case Some(vals) => match GetValue(st, es[|es| - 1])
        case None => None
        case Some(v) => Some(vals + [Show(v)])
  }

  /** The text `getContentValue(vm, raw)` returns, `None` when one of its reads throws. */
  function ContentValue(st: Store, raw: string): Option<string>
  {
    match HoleStrings(st, Holes(Scan(raw)))
    case None => None
    case Some(vals) => Some(Subst(Scan(raw), vals))
  }

  /** Each placeholder is replaced by `String` of `getValue` of its inner text, and the text
      between the placeholders is kept, in order. */
  lemma HoleStringsSpec(st: Store, es: seq<string>)
    ensures HoleStrings(st, es).Some? <==> forall i :: 0 <= i < |es| ==> GetValue(st, es[i]).Some?
    ensures HoleStrings(st, es).Some? ==>
      forall i :: 0 <= i < |es| ==> HoleStrings(st, es).value[i] == Show(GetValue(st, es[i]).value)
  {
    HoleStringsSome(st, es);
    if HoleStrings(st, es).Some? {
      HoleStringsValues(st, es);
    }
  }

  lemma {:induction false} HoleStringsSome(st: Store, es: seq<string>)
    ensures HoleStrings(st, es).Some? <==> forall i :: 0 <= i < |es| ==> GetValue(st, es[i]).Some?
    decreases |es|
  {
    if es != [] {
      var init := es[..|es| - 1];
      HoleStringsSome(st, init);
      assert forall i :: 0 <= i < |init| ==> init[i] == es[i];
    }
  }

  lemma {:induction false} HoleStringsValues(st: Store, es: seq<string>)
    requires HoleStrings(st, es).Some?
    ensures forall i :: 0 <= i < |es| ==>
      GetValue(st, es[i]).Some? && HoleStrings(st, es).value[i] == Show(GetValue(st, es[i]).value)
    decreases |es|
  {
    if es != [] {
      var init := es[..|es| - 1];
      HoleStringsValues(st, init);
      assert forall i :: 0 <= i < |init| ==> init[i] == es[i];
    }
  }

  /** How far the `replace` of `getContentValue` gets through the placeholders `es`: the
      number of them before the first whose read throws, or all of them. */
  function ReadsBefore(st: Store, es: seq<string>): (n: nat)
    ensures n <= |es| && (n < |es| ==> GetValue(st, es[n]).None?)
    ensures forall j :: 0 <= j < n ==> GetValue(st, es[j]).Some?
    decreases |es|
  {
    if es == [] || GetValue(st, es[0]).None? then 0 else 1 + ReadsBefore(st, es[1..])
  }

  /** The replacements exist exactly when the `replace` gets through every placeholder. */
  lemma ReadsBeforeAll(st: Store, es: seq<string>)
    ensures HoleStrings(st, es).Some? <==> ReadsBefore(st, es) == |es|
  {
    HoleStringsSome(st, es);
  }

  /** A text without a placeholder is returned unchanged. */
  lemma ContentWithoutPlaceholders(st: Store, raw: string)
    requires !Test(raw)
    ensures ContentValue(st, raw) == Some(raw)
  {
    NoMatchUnchanged(raw);
  }

  /** The node write a watcher's callback makes for the new value; `None` when it throws. */
  function CallbackEffect(st: Store, view: View, v: Value): Option<Effect>
  {
    match view
    case TextView(_) => Some(TextContent(TextString(v)))
    case ContentView(_, raw) => (match ContentValue(st, raw) case None => None case Some(s) => Some(TextContent(s)))
    case BindView(_, attr) => if ValidAttrName(attr) then Some(Attribute(attr, Show(v))) else None
    case HtmlView(_) => Some(InnerHtml(Show(v)))
    case ModelView(_) => Some(InputValue(Show(v)))
  }

  /** A watcher's callback, as the node write it performs. */
  datatype View =
    | TextView(node: Node)                 // v-text without placeholders: `Updater.text(node, newVal)`
    | ContentView(node: Node, raw: string) // placeholders: `Updater.text(node, getContentValue(vm, raw))`
    | BindView(node: Node, attr: string)   // `Updater.bind(node, attr, newVal)`
    | HtmlView(node: Node)                 // `Updater.html(node, newVal)`
    | ModelView(node: Node)                // `Updater.model(node, newVal)`

  /** What one `update()` does, given the watcher's `oldValue`. */
  datatype Result = Same | Fires(value: Value, effect: Effect) | Throws

  /** What a watcher finds in the data: the value its expression reads (`None` when the read
      throws), and the node write its callback makes for that value (`None` when it throws). */
  datatype Probe = Probe(read: Option<Value>, effect: Option<Effect>)

  function ProbeOf(st: Store, w: Watcher): Probe
  {
    match GetValue(st, w.expression)
    case None => Probe(None, None)
    case Some(v) => Probe(Some(v), CallbackEffect(st, w.view, v))
  }

  /** `update()` on a watcher that finds `p`, with `prev` in `oldValue`: the read throws, or
      the value is `===` the old one, or the callback runs (and may throw). */
  function Decide(p: Probe, prev: Value): Result
  {
    match p.read
    case None => Throws
    case Some(v) =>
      if v == prev then Same
      else match p.effect
        case None => Throws
        case Some(e) => Fires(v, e)
  }

  function Outcome(st: Store, w: Watcher, prev: Value): (o: Result)
    ensures o.Throws? <==>
      || GetValue(st, w.expression).None?
      || (GetValue(st, w.expression).value != prev && CallbackEffect(st, w.view, GetValue(st, w.expression).value).None?)
    ensures o.Same? <==> GetValue(st, w.expression) == Some(prev)
    ensures o.Fires? ==>
      && Some(o.value) == GetValue(st, w.expression) && o.value != prev
      && CallbackEffect(st, w.view, o.value) == Some(o.effect)
  {
    Decide(ProbeOf(st, w), prev)
  }

  /** What each watcher of a list finds in `st`. The data does not change during a notify,
      so this is fixed for the whole round. */
  function Probes(st: Store, ws: seq<Watcher>): (ps: map<Watcher, Probe>)
    ensures forall w :: w in ws ==> w in ps
    decreases |ws|
  {
    if ws == [] then map[] else Probes(st, ws[1..])[ws[0] := ProbeOf(st, ws[0])]
  }

  /** A watcher's probe is what it finds in the data. */
  lemma {:induction false} ProbesAt(st: Store, ws: seq<Watcher>, w: Watcher)
    requires w in ws
    ensures w in Probes(st, ws) && Probes(st, ws)[w] == ProbeOf(st, w)
    decreases |ws|
  {
    if ws[0] != w {
      assert w in ws[1..];
      ProbesAt(st, ws[1..], w);
    }
  }

  /** Each watcher's probe holds what its read finds. */
  lemma ProbesAll(st: Store, ws: seq<Watcher>)
    ensures forall w :: w in ws ==> Probes(st, ws)[w] == ProbeOf(st, w)
    ensures forall w :: w in ws ==> Probes(st, ws)[w].read == GetValue(st, w.expression)
  {
    forall w | w in ws
      ensures Probes(st, ws)[w] == ProbeOf(st, w)
    {
      ProbesAt(st, ws, w);
    }
  }

  // ---------------------------------------------------------------------------------------
  // notify
  // ---------------------------------------------------------------------------------------

  /** What `notify` does to a list of watchers: the watchers whose callback ran, in order, the
      node writes they made, and whether no exception escaped. A watcher's `oldValue` changes
      exactly when its callback runs. */
  datatype Round = Round(fired: seq<Watcher>, effects: seq<(Node, Effect)>, ok: bool)

  /** `subs.forEach(watcher => watcher.update())` from position `i` of the list, when every
      watcher finds what `ps` gives it: `olds` are the `oldValue`s, and `fired` and `effs` the
      callbacks run and the node writes made so far. An exception ends the loop. */
  function RunFrom(ps: map<Watcher, Probe>, ws: seq<Watcher>, i: nat, olds: map<Watcher, Value>,
                   fired: seq<Watcher>, effs: seq<(Node, Effect)>): Round
    requires i <= |ws| && forall w :: w in ws ==> w in ps && w in olds
    decreases |ws| - i
  {
    if i == |ws| then Round(fired, effs, true)
    else
      var w := ws[i];
      match Decide(ps[w], olds[w])
      case Throws => Round(fired, effs, false)
      case Same => RunFrom(ps, ws, i + 1, olds, fired, effs)
      case Fires(v, e) => RunFrom(ps, ws, i + 1, olds[w := v], fired + [w], effs + [(w.view.node, e)])
  }

  /** The round of one `notify` over the whole list. */
  function Run(ps: map<Watcher, Probe>, ws: seq<Watcher>, olds: map<Watcher, Value>): Round
    requires forall w :: w in ws ==> w in ps && w in olds
  {
    RunFrom(ps, ws, 0, olds, [], [])
  }

  /** The watchers a notify fires from position `i` when no update throws: each changed
      watcher once, at its first place in the list; `seen` are those met before `i`. */
  function FiresFrom(ps: map<Watcher, Probe>, ws: seq<Watcher>, i: nat, olds: map<Watcher, Value>, seen: set<Watcher>): seq<Watcher>
    requires i <= |ws| && forall w :: w in ws ==> w in ps && w in olds
    decreases |ws| - i
  {
    if i == |ws| then []
    else
      var w := ws[i];
      (if w !in seen && ps[w].read != Some(olds[w]) then [w] else [])
        + FiresFrom(ps, ws, i + 1, olds, seen + {w})
  }

  /** When no update throws, every watcher from position `i` on reads a value, which is its
      `oldValue` unless its callback ran, and the watchers fired are those of `FiresFrom`. */
  lemma {:induction false} RunSettles(ps: map<Watcher, Probe>, ws: seq<Watcher>, i: nat, olds: map<Watcher, Value>,
                                      fired: seq<Watcher>, effs: seq<(Node, Effect)>,
                                      olds0: map<Watcher, Value>, seen: set<Watcher>)
    requires i <= |ws| && forall w :: w in ws ==> w in ps && w in olds && w in olds0
    requires forall w :: w in seen && w in olds ==> w in ps && ps[w].read == Some(olds[w])
    requires forall w :: w in olds && w !in seen ==> w in olds0 && olds[w] == olds0[w]
    ensures var r := RunFrom(ps, ws, i, olds, fired, effs);
      r.ok ==>
        && (forall j :: i <= j < |ws| ==>
              ps[ws[j]].read.Some? && (ws[j] in r.fired || ps[ws[j]].read == Some(olds[ws[j]])))
        && r.fired == fired + FiresFrom(ps, ws, i, olds0, seen)
    decreases |ws| - i
  {
    if i == |ws| {
      assert fired + [] == fired;
    } else {
      var w := ws[i];
      var o := Decide(ps[w], olds[w]);
      if !o.Throws? {
        if w in seen {
          assert o == Same;
        }
        var olds' := if o.Fires? then olds[w := o.value] else olds;
        var fired' := if o.Fires? then fired + [w] else fired;
        var effs' := if o.Fires? then effs + [(w.view.node, o.effect)] else effs;
        RunSettles(ps, ws, i + 1, olds', fired', effs', olds0, seen + {w});
        var tail := FiresFrom(ps, ws, i + 1, olds0, seen + {w});
        if o.Fires? {
          assert (fired + [w]) + tail == fired + ([w] + tail);
          assert w in fired';
        } else {
          assert [] + tail == tail;
        }
      }
    }
  }

  /** Notify with no change: when every watcher still reads its `oldValue`, no callback runs
      and nothing changes. */
  lemma {:induction false} RunQuiet(ps: map<Watcher, Probe>, ws: seq<Watcher>, i: nat, olds: map<Watcher, Value>,
                                    fired: seq<Watcher>, effs: seq<(Node, Effect)>)
    requires i <= |ws| && forall w :: w in ws ==> w in ps && w in olds
    requires forall j :: i <= j < |ws| ==> ps[ws[j]].read == Some(olds[ws[j]])
    ensures RunFrom(ps, ws, i, olds, fired, effs) == Round(fired, effs, true)
    decreases |ws| - i
  {
    if i < |ws| {
      RunQuiet(ps, ws, i + 1, olds, fired, effs);
    }
  }

  /** Every node write of a round comes from the watcher fired at the same place, and is that
      watcher's callback applied to the value it reads. */
  ghost predicate EffectsMatch(ps: map<Watcher, Probe>, r: Round)
  {
    && |r.effects| == |r.fired|
    && forall i :: 0 <= i < |r.fired| ==>
         && r.effects[i].0 == r.fired[i].view.node
         && r.fired[i] in ps && ps[r.fired[i]].read.Some?
         && ps[r.fired[i]].effect == Some(r.effects[i].1)
  }

  lemma {:induction false} RunEffects(ps: map<Watcher, Probe>, ws: seq<Watcher>, i: nat, olds: map<Watcher, Value>,
                                      fired: seq<Watcher>, effs: seq<(Node, Effect)>)
    requires i <= |ws| && forall w :: w in ws ==> w in ps && w in olds
    requires EffectsMatch(ps, Round(fired, effs, true))
    ensures EffectsMatch(ps, RunFrom(ps, ws, i, olds, fired, effs))
    decreases |ws| - i
  {
    if i < |ws| {
      var w := ws[i];
      var o := Decide(ps[w], olds[w]);
      if o.Same? {
        RunEffects(ps, ws, i + 1, olds, fired, effs);
      } else if o.Fires? {
        var x := (w.view.node, o.effect);
        forall k | 0 <= k < |fired| + 1
          ensures && (effs + [x])[k].0 == (fired + [w])[k].view.node
                  && (fired + [w])[k] in ps && ps[(fired + [w])[k]].read.Some?
                  && ps[(fired + [w])[k]].effect == Some((effs + [x])[k].1)
        {
          if k < |fired| {
            assert (fired + [w])[k] == fired[k] && (effs + [x])[k] == effs[k];
          }
        }
        RunEffects(ps, ws, i + 1, olds[w := o.value], fired + [w], effs + [x]);
      }
    }
  }

  /** A watcher appended twice is updated twice, but its callback runs once: the second
      `update` already finds the new value in `oldValue`. */
  lemma RunTwice(ps: map<Watcher, Probe>, w: Watcher, olds: map<Watcher, Value>)
    requires w in ps && w in olds
    requires ps[w].read.Some? && ps[w].read.value != olds[w] && ps[w].effect.Some?
    ensures Run(ps, [w, w], olds) == Round([w], [(w.view.node, ps[w].effect.value)], true)
  {
    var v := ps[w].read.value;
    var x := (w.view.node, ps[w].effect.value);
    assert Decide(ps[w], olds[w]) == Fires(v, ps[w].effect.value);
    assert Decide(ps[w], olds[w := v][w]) == Same;
    assert [] + [w] == [w] && [] + [x] == [x];
    assert RunFrom(ps, [w, w], 1, olds[w := v], [w], [x]) == Round([w], [x], true);
  }

  // ---------------------------------------------------------------------------------------
  // Dep.target registration
  // ---------------------------------------------------------------------------------------

  function Repeat(w: Watcher, n: nat): (r: seq<Watcher>)
    ensures |r| == n && forall i :: 0 <= i < n ==> r[i] == w
  {
    if n == 0 then [] else Repeat(w, n - 1) + [w]
  }

  /** How many times `d` occurs in `ds`. */
  function Count(ds: seq<Dep>, d: Dep): nat
    decreases |ds|
  {
    if ds == [] then 0 else Count(ds[..|ds| - 1], d) + (if ds[|ds| - 1] == d then 1 else 0)
  }

  lemma CountAppend(ds: seq<Dep>, x: Dep, d: Dep)
    ensures Count(ds + [x], d) == Count(ds, d) + (if x == d then 1 else 0)
  {
    assert (ds + [x])[..|ds|] == ds;
  }

  /** What the getters of the deps `ds` append to `d` while `t` is `Dep.target`. */
  function Registered(t: Watcher?, ds: seq<Dep>, d: Dep): seq<Watcher>
  {
    if t == null then [] else Repeat(t, Count(ds, d))
  }

  lemma RegisteredOne(t: Watcher?, x: Dep, d: Dep)
    ensures Registered(t, [x], d) == if t != null && x == d then [t] else []
  {
    CountAppend([], x, d);
    assert [] + [x] == [x];
  }

  lemma {:induction false} CountConcat(a: seq<Dep>, b: seq<Dep>, d: Dep)
    ensures Count(a + b, d) == Count(a, d) + Count(b, d)
    decreases |b|
  {
    if b == [] {
      assert a + b == a;
    } else {
      var b' := b[..|b| - 1];
      assert a + b == (a + b') + [b[|b| - 1]];
      assert b == b' + [b[|b| - 1]];
      CountAppend(a + b', b[|b| - 1], d);
      CountAppend(b', b[|b| - 1], d);
      CountConcat(a, b', d);
    }
  }

  lemma RegisteredAppend(t: Watcher?, a: seq<Dep>, b: seq<Dep>, d: Dep)
    ensures Registered(t, a + b, d) == Registered(t, a, d) + Registered(t, b, d)
  {
    CountConcat(a, b, d);
  }

  /** A dep a read touches gets the watcher at least once. */
  lemma {:induction false} CountPositive(ds: seq<Dep>, d: Dep)
    requires d in ds
    ensures Count(ds, d) >= 1
    decreases |ds|
  {
    if ds[|ds| - 1] != d {
      assert d in ds[..|ds| - 1] by {
        var i :| 0 <= i < |ds| && ds[i] == d;
        assert ds[..|ds| - 1][i] == d;
      }
      CountPositive(ds[..|ds| - 1], d);
    }
  }

  /** The `oldValue`s of a list of watchers. */
  ghost function Olds(ws: seq<Watcher>): map<Watcher, Value>
    reads ws
  {
    map w | w in ws :: w.oldValue
  }

  /** The nodes the callbacks of a list of watchers write to. */
  ghost function Nodes(ws: seq<Watcher>): set<Node>
  {
    set w | w in ws :: w.view.node
  }

  /** Once one expression of a list throws, the whole list throws. */
  lemma {:induction false} HoleStringsStops(st: Store, es: seq<string>, i: nat)
    requires i <= |es| && HoleStrings(st, es[..i]) == None
    ensures HoleStrings(st, es) == None
    decreases |es| - i
  {
    if i < |es| {
      assert es[..i + 1][..i] == es[..i];
      HoleStringsStops(st, es, i + 1);
    } else {
      assert es[..i] == es;
    }
  }

  // ---------------------------------------------------------------------------------------
  // The objects
  // ---------------------------------------------------------------------------------------

  /** `Dep`: the watchers registered with one property. */
  class Dep {
    var subs: seq<Watcher>

    constructor ()
      ensures subs == []
    {
      subs := [];
    }

    /** `append`: a push, with no check that the watcher is already there. */
    method Append(w: Watcher)
      modifies this`subs
      ensures subs == old(subs) + [w]
    {
      subs := subs + [w];
    }

    /** `notify`: `update` on every watcher of the list in order, until one throws. The
        data does not change meanwhile, so the round is `Run` over the current store. */
    method Notify(ghost vm: MVVM) returns (ok: bool, ghost r: Round)
      requires vm.Valid() && vm.target == null && this in vm.deps
      modifies subs, Nodes(subs)
      ensures vm.Valid() && vm.store == old(vm.store)
      ensures r == Run(Probes(vm.store, subs), subs, old(Olds(subs))) && ok == r.ok
      ensures forall w :: w in subs ==>
        if w in r.fired then Some(w.oldValue) == GetValue(vm.store, w.expression) else w.oldValue == old(w.oldValue)
      ensures forall n :: n in Nodes(subs) ==> n.State() == Replay(n, old(n.State()), r.effects)
    {
      var ws := subs;
      ghost var st := vm.store;
      ghost var ps := Probes(st, ws);
      ghost var olds0 := Olds(ws);
      ghost var cur := olds0;
      ghost var fired: seq<Watcher> := [];
      ghost var effs: seq<(Node, Effect)> := [];
      ghost var ns := Nodes(ws);
      ghost var before := map n | n in ns :: n.State();
      var i := 0;
      ok := true;
      while i < |ws| && ok
        invariant 0 <= i <= |ws|
        invariant vm.Valid() && vm.store == st && vm.target == null
        invariant cur.Keys == olds0.Keys
        invariant ok ==> Run(ps, ws, olds0) == RunFrom(ps, ws, i, cur, fired, effs)
        invariant !ok ==> Run(ps, ws, olds0) == Round(fired, effs, false)
        invariant forall w :: w in ws ==> w.oldValue == cur[w]
        invariant forall w :: w in ws ==>
          if w in fired then Some(w.oldValue) == ps[w].read else w.oldValue == olds0[w]
        invariant forall n :: n in ns ==> n.State() == Replay(n, before[n], effs)
      {
        ok, cur, fired, effs := Visit(vm, st, ps, ws, i, olds0, cur, fired, effs, ns, before);
        i := i + 1;
      }
      r := Round(fired, effs, ok);
      assert forall w :: w in ws && w in fired ==> Some(w.oldValue) == GetValue(st, w.expression) by {
        ProbesAll(st, ws);
      }
    }
  }

  /** One step of `notify`: `update` on the watcher at `i`, and the round so far extended by it. */
  method Visit(ghost vm: MVVM, ghost st: Store, ghost ps: map<Watcher, Probe>, ws: seq<Watcher>, i: nat, ghost olds0: map<Watcher, Value>,
               ghost cur: map<Watcher, Value>, ghost fired: seq<Watcher>, ghost effs: seq<(Node, Effect)>,
               ghost ns: set<Node>, ghost before: map<Node, NodeState>)
    returns (fine: bool, ghost cur': map<Watcher, Value>, ghost fired': seq<Watcher>, ghost effs': seq<(Node, Effect)>)
    requires vm.Valid() && vm.store == st && vm.target == null && i < |ws| && ws[i].vm == vm
    requires cur.Keys == olds0.Keys && ps == Probes(st, ws) && forall w :: w in ws ==> w in olds0
    requires Run(ps, ws, olds0) == RunFrom(ps, ws, i, cur, fired, effs)
    requires forall w :: w in ws ==> w.oldValue == cur[w]
    requires forall w :: w in ws ==>
      if w in fired then Some(w.oldValue) == ps[w].read else w.oldValue == olds0[w]
    requires ws[i].view.node in ns && ns <= before.Keys
    requires forall n :: n in ns ==> n.State() == Replay(n, before[n], effs)
    modifies (ws[i] as Watcher)`oldValue, ws[i].view.node
    ensures vm.Valid() && vm.store == st && vm.target == null && cur'.Keys == cur.Keys
    ensures fine ==> Run(ps, ws, olds0) == RunFrom(ps, ws, i + 1, cur', fired', effs')
    ensures !fine ==> Run(ps, ws, olds0) == Round(fired', effs', false)
    ensures forall w :: w in ws ==> w.oldValue == cur'[w]
    ensures forall w :: w in ws ==>
      if w in fired' then Some(w.oldValue) == ps[w].read else w.oldValue == olds0[w]
    ensures forall n :: n in ns ==> n.State() == Replay(n, before[n], effs')
  {
    var w := ws[i];
    ghost var o := Outcome(st, w, cur[w]);
    ProbesAt(st, ws, w);
    fine := w.Update();
    cur', fired', effs' := cur, fired, effs;
    if !fine {
      return;
    }
    if o.Fires? {
      ghost var x := (w.view.node, o.effect);
      forall n | n in ns
        ensures Replay(n, before[n], effs + [x]) ==
          if n == w.view.node then Apply(Replay(n, before[n], effs), o.effect) else Replay(n, before[n], effs)
      {
        ReplaySnoc(n, before[n], effs, x);
      }
      cur', fired', effs' := cur[w := o.value], fired + [w], effs + [x];
    }
  }

  /** `Watcher`: an expression, the callback that writes its new value into the page, and the
      value it last saw. */
  class Watcher {
    const vm: MVVM
    const expression: string
    const view: View
    var oldValue: Value

    /** The constructor reads the expression while it is `Dep.target`, so each getter on the
        way registers it, once per read, and keeps the value read. */
    constructor (vm: MVVM, expression: string, view: View)
      requires vm.Valid() && vm.target == null && GetValue(vm.store, expression).Some?
      modifies vm`target, vm.deps`subs
      ensures this.vm == vm && this.expression == expression && this.view == view
      ensures vm.Valid() && vm.target == null && vm.store == old(vm.store)
      ensures oldValue == GetValue(vm.store, expression).value
      ensures forall d :: d in vm.deps ==>
        d.subs == old(d.subs) + Repeat(this, Count(Touched(vm.store, Obj(vm.store.root), Split(expression, '.')), d))
    {
      this.vm := vm;
      this.expression := expression;
      this.view := view;
      oldValue := Prim(Undefined);
      new;
      vm.SetTarget(this);
      var v := vm.Get(expression);
      oldValue := v.value;
      vm.SetTarget(null);
    }

    /** `update`: read the expression again and, when the value is not `===` the last one,
        run the callback and keep the new value. `ok` is false when a read throws. The source
        reads the free variable `vm` here (my-mvvm.js line 90); the model reads this watcher's
        own `vm`. */
    method Update() returns (ok: bool)
      requires vm.Valid() && vm.target == null
      modifies this`oldValue, view.node`text, view.node`attrs, view.node`html, view.node`value
      ensures vm.Valid() && vm.target == null && vm.store == old(vm.store)
      ensures var o := Outcome(old(vm.store), this, old(oldValue));
        && ok == !o.Throws?
        && oldValue == (if o.Fires? then o.value else old(oldValue))
        && view.node.State() == (if o.Fires? then Apply(old(view.node.State()), o.effect) else old(view.node.State()))
    {
      var r := vm.Get(expression);
      if r.None? {
        return false;
      }
      var v := r.value;
      if v != oldValue {
        ok := Callback(v);
        if !ok {
          return;
        }
        oldValue := v;
      }
      ok := true;
    }

    /** The callback the compiler gave the watcher, run with the new value: one `Updater`
        write into the node of the view; with placeholders, the whole text is computed again. */
    method Callback(v: Value) returns (ok: bool)
      requires vm.Valid() && vm.target == null
      modifies view.node`text, view.node`attrs, view.node`html, view.node`value
      ensures ok == CallbackEffect(vm.store, view, v).Some?
      ensures view.node.State() ==
        if ok then Apply(old(view.node.State()), CallbackEffect(vm.store, view, v).value) else old(view.node.State())
    {
      match view {
        case TextView(node) =>
          Updater.Text(node, TextString(v));
        case ContentView(node, raw) =>
          var s := vm.GetContentValue(raw);
          if s.None? {
            return false;
          }
          Updater.Text(node, s.value);
        case BindView(node, attr) =>
          ok := Updater.Bind(node, attr, Show(v));
          return;
        case HtmlView(node) =>
          Updater.Html(node, Show(v));
        case ModelView(node) =>
          Updater.Model(node, Show(v));
      }
      ok := true;
    }
  }

  /** The view model: the data store behind `$data`, the names of `$methods`, the keys
      `proxyData` has put on the instance, and `Dep.target`. */
  class MVVM {
    var store: Store
    const methods: set<string>
    var proxied: set<string>
    var target: Watcher?
    /** The deps of all the properties. */
    ghost var deps: set<Dep>

    /** Every property's dep is known, and every watcher registered with one of them, and
        `Dep.target`, belongs to this view model. */
    ghost predicate Owned()
      reads this`store, this`deps, this`target, deps`subs
    {
      && (forall r, k :: At(store, r, k).Some? ==> At(store, r, k).value.dep in deps)
      && (forall d, i :: d in deps && 0 <= i < |d.subs| ==> d.subs[i].vm == this)
      && (target != null ==> target.vm == this)
    }

    ghost predicate Valid()
      reads this`store, this`deps, this`target, deps`subs
    {
      Closed(store) && Owned()
    }

    /** Every key `proxyData` put on the instance is a key of `$data`. */
    ghost predicate Proxied()
      reads this`proxied, this`store
    {
      proxied <= Keys(store, store.root)
    }

    /** `Dep.target = t`. */
    method SetTarget(t: Watcher?)
      requires Valid() && (t != null ==> t.vm == this)
      modifies this`target
      ensures Valid() && target == t && store == old(store)
    {
      target := t;
    }

    // -------------------------------------------------------------------------------------
    // Reads
    // -------------------------------------------------------------------------------------

    /** `u[key]`: the getter of the property, which registers `Dep.target` with its dep. */
    method ReadKey(u: Value, key: string) returns (r: Option<Value>, ghost dd: seq<Dep>)
      requires Valid()
      modifies (if target == null then {} else deps)`subs
      ensures Valid() && store == old(store)
      ensures r == Step(store, u, key) && dd == Reads(store, u, key)
      ensures forall d :: d in deps ==> d.subs == old(d.subs) + Registered(target, dd, d)
    {
      dd := Reads(store, u, key);
      match u {
        case Prim(s) =>
          r := if s == Undefined then None else Some(Prim(Undefined));
        case Obj(id) =>
          if (id, key) in store.props {
            var q := store.props[(id, key)];
            if target != null {
              q.dep.Append(target);
            }
            r := Some(q.value);
          } else {
            r := Some(Prim(Undefined));
          }
      }
      forall d | d in deps
        ensures d.subs == old(d.subs) + Registered(target, dd, d)
      {
        if dd != [] {
          RegisteredOne(target, dd[0], d);
          assert dd == [dd[0]];
        }
      }
    }

    /** `getValue(vm, expression)`: `reduce` over the keys, each read through its getter. */
    method Get(expression: string) returns (r: Option<Value>)
      requires Valid()
      modifies (if target == null then {} else deps)`subs
      ensures Valid() && store == old(store)
      ensures r == GetValue(store, expression)
      ensures forall d :: d in deps ==>
        d.subs == old(d.subs) + Registered(target, Touched(store, Obj(store.root), Split(expression, '.')), d)
    {
      var path := Split(expression, '.');
      ghost var st := store;
      r := Some(Obj(store.root));
      ghost var ts: seq<Dep> := [];
      var i := 0;
      while i < |path| && r.Some?
        invariant 0 <= i <= |path|
        invariant Valid() && store == st
        invariant r == Lookup(st, Obj(st.root), path[..i]) && ts == Touched(st, Obj(st.root), path[..i])
        invariant forall d :: d in deps ==> d.subs == old(d.subs) + Registered(target, ts, d)
      {
        LookupSnoc(st, Obj(st.root), path, i);
        ghost var dd;
        r, dd := ReadKey(r.value, path[i]);
        forall d | d in deps
          ensures Registered(target, ts + dd, d) == Registered(target, ts, d) + Registered(target, dd, d)
        {
          RegisteredAppend(target, ts, dd, d);
        }
        ts := ts + dd;
        i := i + 1;
      }
      if r.None? {
        LookupStops(st, Obj(st.root), path, i);
      } else {
        assert path[..i] == path;
      }
    }

    /** The keys of `path` read one after the other from `$data` while `Dep.target` is null,
        as the `reduce` of `setValue` reads the keys before the last one. */
    method ReadPath(path: seq<string>) returns (r: Option<Value>)
      requires Valid() && target == null
      ensures r == Lookup(store, Obj(store.root), path)
    {
      r := Some(Obj(store.root));
      var i := 0;
      while i < |path| && r.Some?
        invariant 0 <= i <= |path|
        invariant r == Lookup(store, Obj(store.root), path[..i])
      {
        LookupSnoc(store, Obj(store.root), path, i);
        ghost var dd;
        r, dd := ReadKey(r.value, path[i]);
        i := i + 1;
      }
      if r.None? {
        LookupStops(store, Obj(store.root), path, i);
      } else {
        assert path[..i] == path;
      }
    }

    /** `getContentValue(vm, raw)`: every placeholder replaced by `String` of its value. */
    method GetContentValue(raw: string) returns (r: Option<string>)
      requires Valid() && target == null
      ensures r == ContentValue(store, raw)
    {
      var ps := Scan(raw);
      var es := Holes(ps);
      var vals: seq<string> := [];
      var i := 0;
      while i < |es|
        invariant 0 <= i <= |es|
        invariant HoleStrings(store, es[..i]) == Some(vals)
      {
        var v := Get(es[i]);
        assert es[..i + 1][..i] == es[..i];
        if v.None? {
          HoleStringsStops(store, es, i + 1);
          return None;
        }
        vals := vals + [Show(v.value)];
        i := i + 1;
      }
      assert es[..i] == es;
      r := Some(Subst(ps, vals));
    }

    // -------------------------------------------------------------------------------------
    // Observer
    // -------------------------------------------------------------------------------------

    /** `new MVVM(options)` with a root element: `new Observer($data)`, then `proxyData`.
        The compiler runs afterwards (`Compiler.Setup`). */
    constructor (fields: map<string, Plain>, methods: set<string>)
      ensures Valid() && Proxied() && target == null && this.methods == methods
      ensures proxied == fields.Keys
      ensures Represents(store, Obj(store.root), PlainObj(fields), store.place.Keys)
      ensures forall d :: d in deps ==> fresh(d) && d.subs == []
    {
      store := Store(0, map[0 := []], map[], 1);
      this.methods := methods;
      proxied := {};
      target := null;
      deps := {};
      new;
      ghost var R := ObserveFields(0, PlainObj(fields));
      RepresentsGrow(store, Obj(0), PlainObj(fields), R + {0}, store.place.Keys);
      ProxyData();
    }

    /** `proxyData($data)`: an accessor on the instance for every key of `$data`. */
    method ProxyData()
      modifies this`proxied
      ensures proxied == old(proxied) + Keys(store, store.root)
    {
      var keys := Keys(store, store.root);
      ghost var all := keys;
      while keys != {}
        invariant keys <= all
        invariant proxied == old(proxied) + (all - keys)
        decreases keys
      {
        var k :| k in keys;
        proxied := proxied + {k};
        keys := keys - {k};
      }
    }

    /** `Object.defineProperty(data, key, …)` with a new `dep` and the closure variable `value`. */
    method DefineProperty(rec: nat, key: string, v: Value) returns (ghost dep: Dep)
      requires Valid() && rec in store.place && Fits(store, v, store.place[rec] + [key])
      modifies this`store, this`deps
      ensures Valid() && fresh(dep) && dep.subs == [] && deps == old(deps) + {dep}
      ensures store == Define(old(store), rec, key, v, dep)
      ensures Extends(old(store), store, {rec})
      ensures forall k :: k != key ==> At(store, rec, k) == At(old(store), rec, k)
    {
      var d := new Dep();
      DefineClosed(store, rec, key, v, d);
      store := Define(store, rec, key, v, d);
      deps := deps + {d};
      dep := d;
    }

    /** `observe(p)`: a primitive stays as it is; an object literal becomes a reactive object
        placed at `at`, with a property for each of its keys. */
    method Observe(p: Plain, at: seq<string>) returns (v: Value, ghost R: set<nat>)
      requires Valid()
      modifies this`store, this`deps
      ensures Valid() && Above(R, old(store.next)) && R <= store.place.Keys
      ensures Extends(old(store), store, {})
      ensures old(deps) <= deps && forall d :: d in deps && d !in old(deps) ==> fresh(d) && d.subs == []
      ensures WatchedBy(store, R, deps - old(deps))
      ensures Represents(store, v, p, R) && Fits(store, v, at)
      decreases p, 1
    {
      match p {
        case PlainPrim(s) =>
          v, R := Prim(s), {};
        case PlainObj(_) =>
          var id := store.next;
          AddObjectClosed(store, at);
          store := AddObject(store, at);
          ghost var st1 := store;
          R := ObserveFields(id, p);
          ExtendsTrans(old(store), st1, store, {}, {id});
          R := R + {id};
          v := Obj(id);
      }
    }

    /** `Object.keys(data).forEach(key => defineReactive(data, key, data[key]))` on an
        object that has no properties yet. */
    method ObserveFields(rec: nat, p: Plain) returns (ghost R: set<nat>)
      requires Valid() && rec in store.place && p.PlainObj? && forall k :: At(store, rec, k).None?
      modifies this`store, this`deps
      ensures Valid() && Above(R, old(store.next)) && R <= store.place.Keys
      ensures Extends(old(store), store, {rec})
      ensures old(deps) <= deps && forall d :: d in deps && d !in old(deps) ==> fresh(d) && d.subs == []
      ensures WatchedBy(store, R + {rec}, deps - old(deps))
      ensures Represents(store, Obj(rec), p, R + {rec})
      decreases p, 0
    {
      var keys := p.fields.Keys;
      R := {};
      ghost var Rs: map<string, set<nat>> := map[];
      while keys != {}
        invariant Valid() && rec in store.place
        invariant keys <= p.fields.Keys && Rs.Keys == p.fields.Keys - keys
        invariant forall k :: At(store, rec, k).Some? <==> k in Rs
        invariant Above(R, old(store.next)) && R <= store.place.Keys
        invariant Extends(old(store), store, {rec})
        invariant old(deps) <= deps && forall d :: d in deps && d !in old(deps) ==> fresh(d) && d.subs == []
        invariant rec !in R && forall k :: k in Rs ==> Rs[k] <= R
        invariant WatchedBy(store, R, deps - old(deps))
        invariant forall k :: k in Rs ==> At(store, rec, k).value.dep in deps - old(deps)
        invariant forall k :: k in Rs ==> At(store, rec, k).Some? && Represents(store, At(store, rec, k).value.value, p.fields[k], Rs[k])
        decreases keys
      {
        var k :| k in keys;
        ghost var st0 := store;
        var v;
        ghost var Rk;
        v, Rk := DefineReactive(rec, k, p.fields[k]);
        FieldsFrame(st0, store, rec, p.fields, Rs);
        Rs := Rs[k := Rk];
        R := R + Rk;
        keys := keys - {k};
      }
      FieldsGrow(store, rec, p.fields, Rs, R + {rec});
    }

    /** `defineReactive(data, key, value)`: observe the value first, then install the property. */
    method DefineReactive(rec: nat, key: string, p: Plain) returns (v: Value, ghost R: set<nat>)
      requires Valid() && rec in store.place
      modifies this`store, this`deps
      ensures Valid() && Above(R, old(store.next)) && R <= store.place.Keys
      ensures Extends(old(store), store, {rec})
      ensures old(deps) <= deps && forall d :: d in deps && d !in old(deps) ==> fresh(d) && d.subs == []
      ensures forall k :: k != key ==> At(store, rec, k) == At(old(store), rec, k)
      ensures At(store, rec, key).Some? && At(store, rec, key).value.value == v
      ensures fresh(At(store, rec, key).value.dep) && At(store, rec, key).value.dep.subs == []
      ensures WatchedBy(store, R, deps - old(deps))
      ensures Represents(store, v, p, R) && Fits(store, v, old(store.place[rec]) + [key])
      decreases p, 2
    {
      v, R := Observe(p, store.place[rec] + [key]);
      ghost var st1 := store;
      ghost var dep;
      dep := DefineProperty(rec, key, v);
      ExtendsAgree(st1, store, {rec}, R);
      RepresentsFrame(st1, store, v, p, R);
    }

    // -------------------------------------------------------------------------------------
    // Writes
    // -------------------------------------------------------------------------------------

    /** The store side of the setter of `key` of `rec`: `value = newVal`; for an object, also
        `defineReactive(data, key, newVal)`, which observes the object and installs a new
        property with a new dep over the old one. Once the new property is installed, the old
        closure's `value` can no longer be read. */
    method Replace(rec: nat, key: string, p: Plain) returns (v: Value, ghost R: set<nat>)
      requires Valid() && At(store, rec, key).Some?
      modifies this`store, this`deps
      ensures Valid()
      ensures old(deps) <= deps && forall d :: d in deps && d !in old(deps) ==> fresh(d) && d.subs == []
      ensures WatchedBy(store, R, deps - old(deps))
      ensures AgreeOff(old(store), store, old(store.place[rec]) + [key])
      ensures Step(store, Obj(rec), key) == Some(v)
      ensures Represents(store, v, p, R) && Above(R, old(store.next))
      ensures p.PlainPrim? ==> At(store, rec, key).value.dep == old(At(store, rec, key).value.dep)
      ensures p.PlainObj? ==> fresh(At(store, rec, key).value.dep) && At(store, rec, key).value.dep.subs == []
    {
      ghost var st0 := store;
      match p {
        case PlainPrim(s) =>
          v, R := Prim(s), {};
          DefineClosed(store, rec, key, v, store.props[(rec, key)].dep);
          store := Write(store, rec, key, v);
        case PlainObj(_) =>
          v, R := DefineReactive(rec, key, p);
      }
      ReplaceAgree(st0, store, rec, key);
    }

    /** The setter of `key` of `rec`: the store side (`Replace`), then `notify` on the old dep. */
    method Assign(rec: nat, key: string, p: Plain) returns (ok: bool, v: Value, ghost R: set<nat>, ghost r: Round)
      requires Valid() && target == null && At(store, rec, key).Some?
      modifies this`store, this`deps, At(store, rec, key).value.dep.subs, Nodes(At(store, rec, key).value.dep.subs)
      ensures Valid() && target == null
      ensures old(deps) <= deps && forall d :: d in deps && d !in old(deps) ==> fresh(d) && d.subs == []
      ensures WatchedBy(store, R, deps - old(deps))
      ensures AgreeOff(old(store), store, old(store.place[rec]) + [key])
      ensures Step(store, Obj(rec), key) == Some(v)
      ensures Represents(store, v, p, R) && Above(R, old(store.next))
      ensures p.PlainPrim? ==> At(store, rec, key).value.dep == old(At(store, rec, key).value.dep)
      ensures p.PlainObj? ==> fresh(At(store, rec, key).value.dep) && At(store, rec, key).value.dep.subs == []
      ensures var subs := old(At(store, rec, key).value.dep.subs);
        && r == Run(Probes(store, subs), subs, old(Olds(subs))) && ok == r.ok
        && (forall w :: w in subs ==>
              if w in r.fired then Some(w.oldValue) == GetValue(store, w.expression) else w.oldValue == old(w.oldValue))
        && (forall n :: n in Nodes(subs) ==> n.State() == Replay(n, old(n.State()), r.effects))
    {
      var dep := store.props[(rec, key)].dep;
      v, R := Replace(rec, key, p);
      ok, r := dep.Notify(this);
    }

    /** `setValue(vm, expression, value)`: read the keys before the last one, assign the last
        one through its setter, and return what its getter gives afterwards; `None` when an
        update in the setter's notify throws. */
    method SetValue(expression: string, p: Plain) returns (r: Option<Value>, ghost v: Value, ghost R: set<nat>, ghost rnd: Round)
      requires Valid() && target == null && Writable(store, expression)
      modifies this`store, this`deps
      modifies LeafDep(store, expression).subs, Nodes(LeafDep(store, expression).subs)
      ensures Valid() && target == null
      ensures old(deps) <= deps && forall d :: d in deps && d !in old(deps) ==> fresh(d) && d.subs == []
      ensures WatchedBy(store, R, deps - old(deps))
      ensures AgreeOff(old(store), store, Split(expression, '.'))
      ensures Writable(store, expression) && Parent(store, expression) == old(Parent(store, expression))
      ensures p.PlainPrim? ==> LeafDep(store, expression) == old(LeafDep(store, expression))
      ensures p.PlainObj? ==> fresh(LeafDep(store, expression)) && LeafDep(store, expression).subs == []
      ensures GetValue(store, expression) == Some(v)
      ensures Represents(store, v, p, R) && Above(R, old(store.next))
      ensures r == if rnd.ok then Some(v) else None
      ensures var subs := old(LeafDep(store, expression).subs);
        && rnd == Run(Probes(store, subs), subs, old(Olds(subs)))
        && (forall w :: w in subs ==>
              if w in rnd.fired then Some(w.oldValue) == GetValue(store, w.expression) else w.oldValue == old(w.oldValue))
        && (forall n :: n in Nodes(subs) ==> n.State() == Replay(n, old(n.State()), rnd.effects))
    {
      var path := Split(expression, '.');
      ghost var st := store;
      var n := |path| - 1;
      var parent := ReadPath(path[..n]);
      var u := parent.value;
      var rec := u.id;
      var key := path[n];
      LookupPlaced(st, path[..n]);
      assert path[..n] + [key] == path;
      assert At(st, rec, key).value.dep == LeafDep(st, expression);
      var ok;
      ok, v, R, rnd := Assign(rec, key, p);
      LookupOff(st, store, path, path[..n]);
      if ok {
        ghost var dd;
        r, dd := ReadKey(Obj(rec), key);
      } else {
        r := None;
      }
    }

    /** The getter `proxyData` puts on the instance: `vm[key]` reads `$data[key]`. */
    method ProxyGet(key: string) returns (r: Value)
      requires Valid() && Proxied() && key in proxied
      modifies (if target == null then {} else deps)`subs
      ensures Valid() && store == old(store)
      ensures Step(store, Obj(store.root), key) == Some(r)
      ensures '.' !in key ==> GetValue(store, key) == Some(r)
      ensures forall d :: d in deps ==>
        d.subs == old(d.subs) + Registered(target, Reads(store, Obj(store.root), key), d)
    {
      var v;
      ghost var dd;
      v, dd := ReadKey(Obj(store.root), key);
      r := v.value;
      if '.' !in key {
        SplitNoSeparator(key, '.');
        assert [key][..0] == [];
        assert Lookup(store, Obj(store.root), [key]) == Step(store, Obj(store.root), key);
      }
    }

    /** The setter `proxyData` puts on the instance: `vm[key] = newVal` assigns `$data[key]`. */
    method ProxySet(key: string, p: Plain) returns (ok: bool, ghost v: Value, ghost R: set<nat>, ghost rnd: Round)
      requires Valid() && Proxied() && target == null && key in proxied
      modifies this`store, this`deps
      modifies At(store, store.root, key).value.dep.subs, Nodes(At(store, store.root, key).value.dep.subs)
      ensures Valid() && Proxied() && target == null
      ensures old(deps) <= deps && forall d :: d in deps && d !in old(deps) ==> fresh(d) && d.subs == []
      ensures WatchedBy(store, R, deps - old(deps))
      ensures AgreeOff(old(store), store, [key])
      ensures At(store, store.root, key).Some?
      ensures p.PlainPrim? ==> At(store, store.root, key).value.dep == old(At(store, store.root, key).value.dep)
      ensures p.PlainObj? ==> fresh(At(store, store.root, key).value.dep) && At(store, store.root, key).value.dep.subs == []
      ensures Step(store, Obj(store.root), key) == Some(v)
      ensures '.' !in key ==> GetValue(store, key) == Some(v)
      ensures Represents(store, v, p, R) && Above(R, old(store.next))
      ensures var subs := old(At(store, store.root, key).value.dep.subs);
        && rnd == Run(Probes(store, subs), subs, old(Olds(subs))) && ok == rnd.ok
        && (forall w :: w in subs ==>
              if w in rnd.fired then Some(w.oldValue) == GetValue(store, w.expression) else w.oldValue == old(w.oldValue))
        && (forall n :: n in Nodes(subs) ==> n.State() == Replay(n, old(n.State()), rnd.effects))
    {
      ok, v, R, rnd := Assign(store.root, key, p);
      if '.' !in key {
        SplitNoSeparator(key, '.');
        assert [key][..0] == [];
        assert Lookup(store, Obj(store.root), [key]) == Step(store, Obj(store.root), key);
      }
    }

    /** The `input` listener `v-model` adds: `setValue(vm, expression, evt.target.value)`. */
    method OnInput(expression: string, s: string) returns (ghost rnd: Round)
      requires Valid() && target == null && Writable(store, expression)
      modifies this`store, this`deps
      modifies LeafDep(store, expression).subs, Nodes(LeafDep(store, expression).subs)
      ensures Valid() && target == null
      ensures GetValue(store, expression) == Some(Prim(Str(s)))
      ensures Writable(store, expression) && LeafDep(store, expression) == old(LeafDep(store, expression))
      ensures AgreeOff(old(store), store, Split(expression, '.'))
      ensures var subs := old(LeafDep(store, expression).subs);
        && rnd == Run(Probes(store, subs), subs, old(Olds(subs)))
        && (forall n :: n in Nodes(subs) ==> n.State() == Replay(n, old(n.State()), rnd.effects))
    {
      var r;
      ghost var v, R;
      r, v, R, rnd := SetValue(expression, PlainPrim(Str(s)));
    }
  }
}
